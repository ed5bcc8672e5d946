/** scripts/check_avc_fixtures.py, `Reader`: emulation prevention removed from a NAL, and its payload read
    bit by bit with fixed-width and Exp-Golomb codes. */
module BitReader {
  import opened Bytes

  // ---------------------------------------------------------------- emulation prevention

  function Prepend(head: bytes, r: Option<bytes>): Option<bytes> {
    if r.Some? then Some(head + r.value) else None
  }

  function Count(zeros: nat, b: byte): nat {
    if b == 0 then zeros + 1 else 0
  }

  /** What the constructor keeps of the bytes that are left after `zeros` zeros in a row; `None` is the
      IndexError of an escape byte with nothing behind it. */
  function Unescaped(rest: bytes, zeros: nat): Option<bytes> {
    if rest == [] then Some([])
    else if zeros == 2 && rest[0] == 3 then
      if |rest| < 2 then None else Prepend([rest[1]], Unescaped(rest[2..], Count(0, rest[1])))
    else Prepend([rest[0]], Unescaped(rest[1..], Count(zeros, rest[0])))
  }

  /** The payload after the NAL header byte. */
  function RbspOf(nal: bytes): Option<bytes> {
    if nal == [] then Some([]) else Unescaped(nal[1..], 0)
  }

  method ReadRbsp(nal: bytes) returns (r: Option<bytes>)
    ensures r == RbspOf(nal)
  {
    var rbsp: bytes, i, zeros := [], 1, 0;
    ghost var all := RbspOf(nal);
    assert forall t: bytes :: [] + t == t;
    while i < |nal|
      invariant 0 <= zeros && 1 <= i && (i <= |nal| ==> all == Prepend(rbsp, Unescaped(nal[i..], zeros)))
      invariant i > |nal| ==> nal == [] && rbsp == []
    {
      var b := nal[i];
      ghost var rest := nal[i..];
      i := i + 1;
      if zeros == 2 && b == 3 {
        if i >= |nal| {
          return None;
        }
        b := nal[i];
        i := i + 1;
        zeros := 0;
        assert rest[2..] == nal[i..];
      } else {
        assert rest[1..] == nal[i..];
      }
      Regroup(rbsp, [b], Unescaped(nal[i..], Count(zeros, b)));
      rbsp := rbsp + [b];
      zeros := if b == 0 then zeros + 1 else 0;
    }
    assert rbsp + [] == rbsp;
    return Some(rbsp);
  }

  lemma Regroup(a: bytes, b: bytes, r: Option<bytes>)
    ensures Prepend(a, Prepend(b, r)) == Prepend(a + b, r)
  {
    if r.Some? {
      assert a + (b + r.value) == (a + b) + r.value;
    }
  }

  /** Section 7.4.1.1 of ITU-T H.264: 03 before any byte up to 03 that follows two zeros. */
  function Escape(payload: bytes, zeros: nat): bytes {
    if payload == [] then []
    else if zeros == 2 && payload[0] <= 3 then
      [3, payload[0]] + Escape(payload[1..], Count(0, payload[0]))
    else [payload[0]] + Escape(payload[1..], Count(zeros, payload[0]))
  }

  /** The NAL a writer sends: a payload that ends in a zero gets a final 03. */
  function NalOf(header: byte, payload: bytes): bytes {
    [header] + Escape(payload, 0) + if EndsInZero(payload) then [3] else []
  }

  predicate EndsInZero(payload: bytes) {
    payload != [] && payload[|payload| - 1] == 0
  }

  /** How many zeros in a row the reader has counted after reading an escaped payload. */
  function ZerosAfter(payload: bytes, zeros: nat): nat {
    if payload == [] then zeros
    else ZerosAfter(payload[1..], Count(if zeros == 2 && payload[0] <= 3 then 0 else zeros, payload[0]))
  }

  lemma StepEscaped(b: byte, rest: bytes)
    ensures Unescaped([3, b] + rest, 2) == Prepend([b], Unescaped(rest, Count(0, b)))
  {
    var s := [3, b] + rest;
    assert s[2..] == rest && s[0] == 3 && s[1] == b;
  }

  lemma StepPlain(b: byte, rest: bytes, zeros: nat)
    requires !(zeros == 2 && b <= 3)
    ensures Unescaped([b] + rest, zeros) == Prepend([b], Unescaped(rest, Count(zeros, b)))
  {
    assert ([b] + rest)[1..] == rest;
  }

  lemma {:induction false} ReadsEscaped(payload: bytes, zeros: nat, tail: bytes)
    requires zeros <= 2
    ensures Unescaped(Escape(payload, zeros) + tail, zeros) ==
            Prepend(payload, Unescaped(tail, ZerosAfter(payload, zeros)))
    decreases |payload|
  {
    if payload == [] {
      assert Escape(payload, zeros) + tail == tail;
      assert Unescaped(tail, zeros).Some? ==> [] + Unescaped(tail, zeros).value == Unescaped(tail, zeros).value;
    } else {
      var b, more := payload[0], payload[1..];
      var z := Count(if zeros == 2 && b <= 3 then 0 else zeros, b);
      ReadsEscaped(more, z, tail);
      StepBoth(payload, zeros, z, Escape(more, z), tail);
      Regroup([b], more, Unescaped(tail, ZerosAfter(more, z)));
      assert [b] + more == payload;
    }
  }

  /** The first step of reading an escaped payload. */
  lemma StepBoth(payload: bytes, zeros: nat, z: nat, rest: bytes, tail: bytes)
    requires zeros <= 2 && payload != []
    requires z == Count(if zeros == 2 && payload[0] <= 3 then 0 else zeros, payload[0])
    requires rest == Escape(payload[1..], z)
    ensures Unescaped(Escape(payload, zeros) + tail, zeros) == Prepend([payload[0]], Unescaped(rest + tail, z))
  {
    var b := payload[0];
    if zeros == 2 && b <= 3 {
      StepEscaped(b, rest + tail);
      Assoc([3, b], rest, tail);
      assert Escape(payload, zeros) == [3, b] + rest;
    } else {
      StepPlain(b, rest + tail, zeros);
      Assoc([b], rest, tail);
      assert Escape(payload, zeros) == [b] + rest;
    }
  }

  lemma {:induction false} ZerosAtTheEnd(payload: bytes, zeros: nat)
    requires zeros <= 2 && payload != []
    ensures ZerosAfter(payload, zeros) <= 2
    ensures ZerosAfter(payload, zeros) == 0 <==> !EndsInZero(payload)
    decreases |payload|
  {
    if |payload| > 1 {
      ZerosAtTheEnd(payload[1..], Count(if zeros == 2 && payload[0] <= 3 then 0 else zeros, payload[0]));
    }
  }

  /** The reader recovers a written payload exactly when it does not end in a zero byte: the final 03 of
      the standard is then read as data, or as an escape with nothing behind it. */
  lemma ReaderUndoesEscaping(header: byte, payload: bytes)
    ensures RbspOf(NalOf(header, payload)) == Some(payload) <==> !EndsInZero(payload)
  {
    var tail: bytes := if EndsInZero(payload) then [3] else [];
    assert NalOf(header, payload)[1..] == Escape(payload, 0) + tail;
    ReadsEscaped(payload, 0, tail);
    if EndsInZero(payload) {
      ZerosAtTheEnd(payload, 0);
      var z := ZerosAfter(payload, 0);
      assert [3][1..] == [];
      assert z == 1 ==> Unescaped([3], z) == Prepend([3], Some([]));
      assert z == 1 ==> Unescaped([3], z) == Some([3] + []);
    } else {
      assert payload + [] == payload;
    }
  }

  /** The closing escape byte behind one zero is kept as data, and behind two zeros it is an IndexError. */
  lemma TrailingZerosAreMisread(header: byte)
    ensures RbspOf(NalOf(header, [0])) == Some([0, 3]) && RbspOf(NalOf(header, [0, 0])) == None
  {
    assert Unescaped([3], 1) == Some([3]) by {
      StepPlain(3, [], 1);
      assert [3] + [] == [3];
    }
    assert [0][1..] == [] && [0, 0][1..] == [0] && [3][1..] == [];
    ReadsEscaped([0], 0, [3]);
    assert NalOf(header, [0])[1..] == Escape([0], 0) + [3];
    var zero: bytes, escape: bytes := [0], [3];
    assert zero + escape == [0, 3];
    assert Prepend(zero, Some(escape)) == Some([0, 3]);
    ReadsEscaped([0, 0], 0, [3]);
    assert NalOf(header, [0, 0])[1..] == Escape([0, 0], 0) + [3];
  }
}
