/** scripts/check_avc_fixtures.py, `Reader.u`, `ue` and `se`: a cursor over the bits of a payload, the codes
    of section 9.1 of ITU-T H.264, and the proof that coded values are read back from any position and
    that nothing else is. */
module ExpGolomb {
  import opened Bytes
  import BitReader

  type bit = b: int | 0 <= b < 2
  type bits = seq<bit>

  function Pow2(n: nat): (r: nat)
    ensures r > 0
  {
    if n == 0 then 1 else 2 * Pow2(n - 1)
  }

  /** `value` in `width` bits, most significant first. */
  function Binary(width: nat, value: nat): (r: bits)
    ensures |r| == width
  {
    if width == 0 then [] else Binary(width - 1, value / 2) + [value % 2]
  }

  /** The number a row of bits denotes; 0 for the empty row. */
  function Value(b: bits): nat {
    if b == [] then 0 else 2 * Value(b[..|b| - 1]) + b[|b| - 1]
  }

  lemma {:induction false} ValueOfBinary(width: nat, value: nat)
    requires value < Pow2(width)
    ensures Value(Binary(width, value)) == value
  {
    if width > 0 {
      ValueOfBinary(width - 1, value / 2);
      assert Binary(width, value)[..width - 1] == Binary(width - 1, value / 2);
    }
  }

  lemma {:induction false} BinaryOfValue(b: bits)
    ensures Value(b) < Pow2(|b|) && Binary(|b|, Value(b)) == b
  {
    if b != [] {
      BinaryOfValue(b[..|b| - 1]);
      assert b == b[..|b| - 1] + [b[|b| - 1]];
    }
  }

  /** The bits of a payload, eight a byte. */
  function BitsOf(payload: bytes): (r: bits)
    ensures |r| == 8 * |payload|
  {
    if payload == [] then [] else BitsOf(payload[..|payload| - 1]) + Binary(8, payload[|payload| - 1])
  }

  // ---------------------------------------------------------------- the reader

  /** What one read gives (`None`: it raised 'truncated') and where it leaves the cursor. */
  datatype Outcome = Outcome(value: Option<int>, at: nat)

  function Fixed(all: bits, at: nat, n: nat): Outcome {
    if at + n > |all| then Outcome(None, at) else Outcome(Some(Value(all[at..at + n])), at + n)
  }

  /** The reader of an unsigned code that has passed `zeros` zeros. */
  function Unsigned(all: bits, at: nat, zeros: nat): (r: Outcome)
    decreases |all| - at
  {
    if at >= |all| then Outcome(None, at)
    else if all[at] == 0 then Unsigned(all, at + 1, zeros + 1)
    else
      var tail := Fixed(all, at + 1, zeros);
      if tail.value.None? then tail else Outcome(Some(Pow2(zeros) - 1 + tail.value.value), tail.at)
  }

  function Sign(n: int): int {
    if n % 2 == 1 then (n + 1) / 2 else -(n / 2)
  }

  function Signed(all: bits, at: nat): Outcome {
    var r := Unsigned(all, at, 0);
    if r.value.None? then r else Outcome(Some(Sign(r.value.value)), r.at)
  }

  lemma {:induction false} UnsignedIsNat(all: bits, at: nat, zeros: nat)
    ensures var r := Unsigned(all, at, zeros); r.value.Some? ==> r.value.value >= 0 && at < r.at <= |all|
    ensures at <= |all| ==> at <= Unsigned(all, at, zeros).at <= |all|
    decreases |all| - at
  {
    if at < |all| && all[at] == 0 {
      UnsignedIsNat(all, at + 1, zeros + 1);
    }
  }

  lemma OneBit(all: bits, at: nat)
    ensures Fixed(all, at, 1) == if at < |all| then Outcome(Some(all[at]), at + 1) else Outcome(None, at)
  {
    if at < |all| {
      var one: bits := [all[at]];
      assert all[at..at + 1] == one && one[..0] == [];
      assert Value(one) == 2 * Value([]) + all[at];
    }
  }

  class Reader {
    const all: bits
    var at: nat

    constructor (rbsp: bytes)
      ensures all == BitsOf(rbsp) && at == 0
    {
      all, at := BitsOf(rbsp), 0;
    }

    method U(n: nat) returns (value: Option<nat>)
      requires at <= |all|
      modifies this`at
      ensures at <= |all|
      ensures Outcome(value, at) == Fixed(all, old(at), n)
    {
      if at + n > |all| {
        return None;
      }
      value := Some(Value(all[at..at + n]));
      at := at + n;
    }

    method Ue() returns (value: Option<nat>)
      requires at <= |all|
      modifies this`at
      ensures at <= |all|
      ensures Outcome(value, at) == Unsigned(all, old(at), 0)
    {
      var n: nat := 0;
      OneBit(all, at);
      var b := U(1);
      while b == Some(0)
        invariant at <= |all|
        invariant b.None? ==> Unsigned(all, old(at), 0) == Outcome(None, at)
        invariant b.Some? ==> at > 0 && all[at - 1] == b.value && Unsigned(all, old(at), 0) == Unsigned(all, at - 1, n)
        decreases |all| - at, b.Some?
      {
        n := n + 1;
        OneBit(all, at);
        b := U(1);
      }
      if b.None? {
        return None;
      }
      var tail := U(n);
      value := if tail.None? then None else Some(Pow2(n) - 1 + tail.value);
    }

    method Se() returns (value: Option<int>)
      requires at <= |all|
      modifies this`at
      ensures at <= |all|
      ensures Outcome(value, at) == Signed(all, old(at))
    {
      var n := Ue();
      if n.None? {
        return None;
      }
      var k: int := n.value / 2;
      value := Some(if n.value % 2 == 1 then k + 1 else -k);
    }
  }

  // ---------------------------------------------------------------- the codes

  function Zeros(n: nat): (r: bits)
    ensures |r| == n
    ensures forall i :: 0 <= i < n ==> r[i] == 0
  {
    seq(n, _ => 0)
  }

  /** How many bits `v + 1` has after its leading one. */
  function Width(v: nat): (w: nat)
    ensures Pow2(w) <= v + 1 < 2 * Pow2(w)
  {
    if v == 0 then 0 else 1 + Width((v - 1) / 2)
  }

  lemma {:induction false} WidthIsUnique(v: nat, w: nat)
    requires Pow2(w) <= v + 1 < 2 * Pow2(w)
    ensures w == Width(v)
  {
    if v > 0 && w > 0 {
      WidthIsUnique((v - 1) / 2, w - 1);
    }
  }

  /** A row of zeros, a one and `rest`. */
  function Codeword(w: nat, rest: bits): (r: bits)
    ensures |r| == w + 1 + |rest|
  {
    Zeros(w) + ([1] + rest)
  }

  /** As many zeros as `v + 1` has bits after its first, then `v + 1` in binary. */
  function UnsignedCode(v: nat): bits {
    Codeword(Width(v), Binary(Width(v), v + 1 - Pow2(Width(v))))
  }

  /** The unsigned number that stands for a signed one. */
  function Folded(k: int): nat {
    if k > 0 then 2 * k - 1 else -2 * k
  }

  lemma FoldedIsUndone(n: nat, k: int)
    ensures Sign(n) == k <==> n == Folded(k)
  {
  }

  function SignedCode(k: int): bits {
    UnsignedCode(Folded(k))
  }

  lemma {:induction false} SkipZeros(all: bits, at: nat, zeros: nat, n: nat)
    requires at + n <= |all|
    requires forall i :: at <= i < at + n ==> all[i] == 0
    ensures Unsigned(all, at, zeros) == Unsigned(all, at + n, zeros + n)
    decreases n
  {
    if n > 0 {
      SkipZeros(all, at + 1, zeros + 1, n - 1);
    }
  }

  /** `code` stands in `all` from bit `at` on. */
  predicate Stands(code: bits, all: bits, at: nat) {
    at + |code| <= |all| && all[at..at + |code|] == code
  }

  lemma StandsApart(a: bits, b: bits, all: bits, at: nat)
    ensures Stands(a + b, all, at) <==> Stands(a, all, at) && Stands(b, all, at + |a|)
  {
    if at + |a| + |b| <= |all| {
      assert all[at..at + |a| + |b|] == all[at..at + |a|] + all[at + |a|..at + |a| + |b|];
      assert (a + b)[..|a|] == a && (a + b)[|a|..] == b;
      assert all[at..at + |a| + |b|][..|a|] == all[at..at + |a|];
      assert all[at..at + |a| + |b|][|a|..] == all[at + |a|..at + |a| + |b|];
    }
  }

  /** A codeword seen bit by bit. */
  lemma CodeParts(w: nat, rest: bits, all: bits, at: nat)
    ensures Stands(Codeword(w, rest), all, at) <==>
      && at + w < |all| && (forall i :: at <= i < at + w ==> all[i] == 0) && all[at + w] == 1
      && Stands(rest, all, at + w + 1)
  {
    StandsApart(Zeros(w), [1] + rest, all, at);
    StandsApart([1], rest, all, at + w);
    ZerosStand(w, all, at);
    if at + w < |all| {
      assert all[at + w..at + w + 1] == [all[at + w]];
    }
  }

  lemma ZerosStand(w: nat, all: bits, at: nat)
    ensures Stands(Zeros(w), all, at) <==> at + w <= |all| && forall i :: at <= i < at + w ==> all[i] == 0
  {
    if at + w <= |all| {
      assert forall i :: at <= i < at + w ==> all[i] == all[at..at + w][i - at];
    }
  }

  lemma UnsignedReadsBack(all: bits, at: nat, v: nat)
    requires Stands(UnsignedCode(v), all, at)
    ensures Unsigned(all, at, 0) == Outcome(Some(v), at + |UnsignedCode(v)|)
  {
    var w := Width(v);
    var low := v + 1 - Pow2(w);
    ValueOfBinary(w, low);
    CodewordIsRead(w, Binary(w, low), all, at);
  }

  lemma CodewordIsRead(w: nat, rest: bits, all: bits, at: nat)
    requires |rest| == w && Stands(Codeword(w, rest), all, at)
    ensures Unsigned(all, at, 0) == Outcome(Some(Pow2(w) - 1 + Value(rest)), at + |Codeword(w, rest)|)
  {
    CodeParts(w, rest, all, at);
    SkipZeros(all, at, 0, w);
  }

  lemma {:induction false} ReadUnsignedStands(all: bits, at: nat, zeros: nat)
    requires zeros <= at && Unsigned(all, at, zeros).value.Some?
    requires forall i :: at - zeros <= i < at ==> all[i] == 0
    ensures var r := Unsigned(all, at, zeros);
      r.value.value >= 0 && Stands(UnsignedCode(r.value.value), all, at - zeros) &&
      r.at == at - zeros + |UnsignedCode(r.value.value)|
    decreases |all| - at
  {
    if all[at] == 0 {
      ReadUnsignedStands(all, at + 1, zeros + 1);
    } else {
      assert all[at] == 1;
      CodeStands(all, at, zeros, Unsigned(all, at, zeros).value.value);
    }
  }

  lemma CodeStands(all: bits, at: nat, zeros: nat, v: int)
    requires zeros <= at && at + 1 + zeros <= |all| && all[at] == 1
    requires forall i :: at - zeros <= i < at ==> all[i] == 0
    requires v == Pow2(zeros) - 1 + Value(all[at + 1..at + 1 + zeros])
    ensures v >= 0 && |UnsignedCode(v)| == 2 * zeros + 1 && Stands(UnsignedCode(v), all, at - zeros)
  {
    var rest := all[at + 1..at + 1 + zeros];
    CodewordIsCode(zeros, rest, v);
    CodeParts(zeros, rest, all, at - zeros);
  }

  lemma CodewordIsCode(w: nat, rest: bits, v: nat)
    requires w == |rest| && v == Pow2(w) - 1 + Value(rest)
    ensures UnsignedCode(v) == Codeword(w, rest)
  {
    BinaryOfValue(rest);
    WidthIsUnique(v, w);
  }

  /** `ue` returns `v` exactly when the code of `v` stands at the cursor, and then stops right behind it;
      it raises exactly when no code stands there. */
  lemma UnsignedExactly(all: bits, at: nat, v: nat)
    ensures Unsigned(all, at, 0).value == Some(v) <==> Stands(UnsignedCode(v), all, at)
    ensures Stands(UnsignedCode(v), all, at) ==> Unsigned(all, at, 0).at == at + |UnsignedCode(v)|
    ensures Unsigned(all, at, 0).value.None? <==> forall u: nat :: !Stands(UnsignedCode(u), all, at)
  {
    if Unsigned(all, at, 0).value.Some? {
      ReadUnsignedStands(all, at, 0);
    }
    forall u: nat | Stands(UnsignedCode(u), all, at)
      ensures Unsigned(all, at, 0) == Outcome(Some(u), at + |UnsignedCode(u)|)
    {
      UnsignedReadsBack(all, at, u);
    }
  }

  lemma BinaryExactly(part: bits, width: nat, n: nat)
    requires |part| == width && n < Pow2(width)
    ensures Value(part) == n <==> part == Binary(width, n)
  {
    ValueOfBinary(width, n);
    BinaryOfValue(part);
  }

  lemma FixedExactly(all: bits, at: nat, width: nat, n: nat)
    requires n < Pow2(width)
    ensures Fixed(all, at, width).value == Some(n) <==> Stands(Binary(width, n), all, at)
  {
    if at + width <= |all| {
      BinaryExactly(all[at..at + width], width, n);
    }
  }

  lemma SignedExactly(all: bits, at: nat, k: int)
    ensures Signed(all, at).value == Some(k) <==> Stands(SignedCode(k), all, at)
    ensures Stands(SignedCode(k), all, at) ==> Signed(all, at).at == at + |SignedCode(k)|
  {
    var r := Unsigned(all, at, 0).value;
    UnsignedExactly(all, at, Folded(k));
    UnsignedIsNat(all, at, 0);
    if r.Some? {
      FoldedIsUndone(r.value, k);
    }
  }

  // ---------------------------------------------------------------- syntax elements

  datatype Element = U(width: nat, n: nat) | Ue(v: nat) | Se(k: int)

  predicate Fits(e: Element) {
    e.U? ==> e.n < Pow2(e.width)
  }

  predicate AllFit(es: seq<Element>) {
    es == [] || (Fits(es[0]) && AllFit(es[1..]))
  }

  function Code(e: Element): bits {
    match e
    case U(width, n) => Binary(width, n)
    case Ue(v) => UnsignedCode(v)
    case Se(k) => SignedCode(k)
  }

  function ValueOf(e: Element): int {
    match e case U(_, n) => n case Ue(v) => v case Se(k) => k
  }

  /** What the reader reads where it expects an element of the kind of `e`. */
  function ReadLike(all: bits, at: nat, e: Element): Outcome {
    match e
    case U(width, _) => Fixed(all, at, width)
    case Ue(_) => Unsigned(all, at, 0)
    case Se(_) => Signed(all, at)
  }

  predicate SameKind(a: Element, b: Element) {
    a.U? == b.U? && a.Ue? == b.Ue? && (a.U? ==> a.width == b.width)
  }

  lemma ElementExactly(all: bits, at: nat, e: Element)
    requires Fits(e)
    ensures ReadLike(all, at, e).value == Some(ValueOf(e)) <==> Stands(Code(e), all, at)
    ensures Stands(Code(e), all, at) ==> ReadLike(all, at, e).at == at + |Code(e)|
  {
    match e
    case U(width, n) => FixedExactly(all, at, width, n);
    case Ue(v) => UnsignedExactly(all, at, v);
    case Se(k) => SignedExactly(all, at, k);
  }

  function Coded(es: seq<Element>): bits {
    if es == [] then [] else Code(es[0]) + Coded(es[1..])
  }

  /** The elements read one after the other give the values in `es`, ending at `end`. */
  predicate Reads(all: bits, at: nat, es: seq<Element>, end: nat)
    decreases |es|
  {
    if es == [] then at == end
    else ReadLike(all, at, es[0]).value == Some(ValueOf(es[0])) && Reads(all, ReadLike(all, at, es[0]).at, es[1..], end)
  }

  /** From any position a list of elements reads back exactly when its code stands there, and the cursor
      ends exactly behind it. */
  lemma {:induction false} ListExactly(all: bits, at: nat, es: seq<Element>, end: nat)
    requires at <= |all| && AllFit(es)
    ensures Reads(all, at, es, end) <==> Stands(Coded(es), all, at) && end == at + |Coded(es)|
    decreases |es|
  {
    if es != [] {
      ListStep(all, at, es);
      var r := ReadLike(all, at, es[0]);
      if r.value == Some(ValueOf(es[0])) {
        ListExactly(all, r.at, es[1..], end);
      }
    }
  }

  lemma ListStep(all: bits, at: nat, es: seq<Element>)
    requires es != [] && Fits(es[0])
    ensures var r := ReadLike(all, at, es[0]);
      && (Stands(Coded(es), all, at) <==> r.value == Some(ValueOf(es[0])) && Stands(Coded(es[1..]), all, r.at))
      && (r.value == Some(ValueOf(es[0])) ==> at + |Coded(es)| == r.at + |Coded(es[1..])| && r.at <= |all|)
  {
    ElementExactly(all, at, es[0]);
    var r := ReadLike(all, at, es[0]);
    CodeThenMore(Code(es[0]), Coded(es[1..]), all, at, r.value == Some(ValueOf(es[0])), r.at);
  }

  lemma CodeThenMore(code: bits, more: bits, all: bits, at: nat, read: bool, next: nat)
    requires (read <==> Stands(code, all, at)) && (read ==> next == at + |code|)
    ensures Stands(code + more, all, at) <==> read && Stands(more, all, next)
    ensures read ==> at + |code + more| == next + |more| && next <= |all|
  {
    StandsApart(code, more, all, at);
  }

  predicate SameKinds(a: seq<Element>, b: seq<Element>) {
    |a| == |b| && forall i :: 0 <= i < |a| ==> SameKind(a[i], b[i])
  }

  /** Two lists of the same kinds of element never share their bits, whatever follows them. */
  lemma {:induction false} UniqueDecoding(a: seq<Element>, b: seq<Element>, afterA: bits, afterB: bits)
    requires SameKinds(a, b) && AllFit(a) && AllFit(b)
    requires Coded(a) + afterA == Coded(b) + afterB
    ensures a == b && afterA == afterB
  {
    var all := Coded(a) + afterA;
    assert Stands(Coded(a), all, 0) && Stands(Coded(b), all, 0) by {
      assert all == Coded(b) + afterB;
    }
    ListExactly(all, 0, a, |Coded(a)|);
    ListExactly(all, 0, b, |Coded(b)|);
    SameReadings(all, 0, a, |Coded(a)|, b, |Coded(b)|);
    assert all[|Coded(a)|..] == afterA;
    assert all[|Coded(b)|..] == afterB;
  }

  lemma {:induction false} SameReadings(all: bits, at: nat, a: seq<Element>, endA: nat, b: seq<Element>, endB: nat)
    requires SameKinds(a, b) && Reads(all, at, a, endA) && Reads(all, at, b, endB)
    ensures a == b && endA == endB
    decreases |a|
  {
    if a != [] {
      assert SameKind(a[0], b[0]);
      forall i | 0 <= i < |a| - 1 ensures SameKind(a[1..][i], b[1..][i]) {
        assert SameKind(a[i + 1], b[i + 1]);
      }
      SameReadings(all, ReadLike(all, at, a[0]).at, a[1..], endA, b[1..], endB);
      assert a == [a[0]] + a[1..] && b == [b[0]] + b[1..];
    }
  }

  /** From the elements to the NAL and back: what a writer codes, escapes and puts behind a header byte the
      reader reads, provided the payload does not end in a zero byte. */
  lemma WrittenNalIsRead(header: byte, payload: bytes, es: seq<Element>, after: bits)
    requires AllFit(es)
    requires BitsOf(payload) == Coded(es) + after && !BitReader.EndsInZero(payload)
    ensures var rbsp := BitReader.RbspOf(BitReader.NalOf(header, payload));
      rbsp.Some? && Reads(BitsOf(rbsp.value), 0, es, |Coded(es)|)
  {
    BitReader.ReaderUndoesEscaping(header, payload);
    ListExactly(BitsOf(payload), 0, es, |Coded(es)|);
  }
}
