/** scripts/claim_proof_bundle_checker.py, `_blank_tla`: TLA+ text with comments and strings blanked, every other
    character kept in place. */
module TlaLexer {
  import opened Bytes
  import opened Blanking

  const OPEN: string := "(*"
  const CLOSE: string := "*)"
  const LINE: string := "\\*"

  /** The position after the quote that closes a string whose contents start at `j`. */
  function StringEnd(text: string, j: nat): (r: Option<nat>)
    ensures r.Some? ==> j < r.value <= |text|
    decreases |text| - j
  {
    if j >= |text| || text[j] == '\n' then None
    else if text[j] == '"' then Some(j + 1)
    else StringEnd(text, if text[j] == '\\' then j + 2 else j + 1)
  }

  function Prepend(head: string, r: Result<string, LexError>): Result<string, LexError> {
    if r.Ok? then Ok(head + r.value) else r
  }

  /** A comment, a line comment or a string begins at `k`. */
  predicate OpenerAt(s: string, k: nat)
    requires k < |s|
  {
    s[k] == '"' || StartsWith(s, OPEN, k) || StartsWith(s, LINE, k)
  }

  lemma LineCommentAdvances(text: string, i: nat)
    requires StartsWith(text, LINE, i)
    ensures i < LineEnd(text, i)
  {
    assert text[i + 0] == LINE[0];
  }

  /** The position after what begins at `i`. */
  function TokenEnd(text: string, i: nat): (r: Result<nat, LexError>)
    requires i < |text| && OpenerAt(text, i)
    ensures r.Ok? ==> i < r.value <= |text|
  {
    if StartsWith(text, OPEN, i) then
      var j := CommentEnd(text, i, 0, OPEN, CLOSE);
      if j.Some? then Ok(j.value) else Refused(UnterminatedComment)
    else if StartsWith(text, LINE, i) then
      LineCommentAdvances(text, i);
      Ok(LineEnd(text, i))
    else
      var j := StringEnd(text, i + 1);
      if j.Some? then Ok(j.value) else Refused(UnterminatedString)
  }

  /** The blanked text from `i` on. */
  function BlankedFrom(text: string, i: nat): Result<string, LexError>
    decreases |text| - i
  {
    if i >= |text| then Ok("")
    else if !OpenerAt(text, i) then Prepend([text[i]], BlankedFrom(text, i + 1))
    else
      var j := TokenEnd(text, i);
      if j.Refused? then Refused(j.why) else Prepend(Blank(text[i..j.value]), BlankedFrom(text, j.value))
  }

  method EndOfString(text: string, i: nat) returns (r: Option<nat>)
    requires i < |text|
    ensures r == StringEnd(text, i + 1)
  {
    var j := i + 1;
    while j < |text| && text[j] != '"' && text[j] != '\n'
      invariant j > i && StringEnd(text, i + 1) == StringEnd(text, j)
    {
      j := j + if text[j] == '\\' then 2 else 1;
    }
    return if j >= |text| || text[j] != '"' then None else Some(j + 1);
  }

  /** What one turn of the loop emits, and where it goes on. */
  datatype Turn = Turn(piece: string, next: nat)

  method BlankNext(text: string, i: nat) returns (r: Result<Turn, LexError>)
    requires i < |text|
    ensures r.Refused? ==> BlankedFrom(text, i) == Refused(r.why)
    ensures r.Ok? ==> r.value.next > i
    ensures r.Ok? ==> BlankedFrom(text, i) == Prepend(r.value.piece, BlankedFrom(text, r.value.next))
  {
    if StartsWith(text, OPEN, i) {
      var j := NestedCommentEnd(text, i, OPEN, CLOSE);
      if j.Refused? {
        return Refused(UnterminatedComment);
      }
      return Ok(Turn(Blank(text[i..j.value]), j.value));
    } else if StartsWith(text, LINE, i) {
      LineCommentAdvances(text, i);
      var j := LineEnd(text, i);
      SpacesAreBlank(text, i, j);
      return Ok(Turn(seq(j - i, _ => ' '), j));
    } else if text[i] == '"' {
      var j := EndOfString(text, i);
      if j.None? {
        return Refused(UnterminatedString);
      }
      return Ok(Turn(Blank(text[i..j.value]), j.value));
    }
    return Ok(Turn([text[i]], i + 1));
  }

  method BlankTla(text: string) returns (r: Result<string, LexError>)
    ensures r == BlankedFrom(text, 0)
  {
    var out, i := "", 0;
    assert forall s: string :: "" + s == s;
    while i < |text|
      invariant BlankedFrom(text, 0) == Prepend(out, BlankedFrom(text, i))
    {
      var turn := BlankNext(text, i);
      if turn.Refused? {
        return Refused(turn.why);
      }
      Regroup(out, turn.value.piece, BlankedFrom(text, turn.value.next));
      out, i := out + turn.value.piece, turn.value.next;
    }
    assert out + "" == out;
    return Ok(out);
  }

  lemma SpacesAreBlank(text: string, i: nat, j: nat)
    requires i <= |text| && j == LineEnd(text, i)
    ensures Blank(text[i..j]) == seq(j - i, _ => ' ')
  {
  }

  lemma Regroup(a: string, b: string, r: Result<string, LexError>)
    ensures Prepend(a, Prepend(b, r)) == Prepend(a + b, r)
  {
    if r.Ok? {
      assert a + (b + r.value) == (a + b) + r.value;
    }
  }

  // ---------------------------------------------------------------- positions

  lemma {:induction false} KeepsPositions(text: string, i: nat)
    requires i <= |text| && BlankedFrom(text, i).Ok?
    ensures Aligned(text, i, BlankedFrom(text, i).value) && |BlankedFrom(text, i).value| == |text| - i
    decreases |text| - i
  {
    if i < |text| {
      var piece, j := FirstPiece(text, i);
      KeepsPositions(text, j);
      AlignedAppend(text, i, piece, BlankedFrom(text, j).value);
    }
  }

  /** One step of the lexer, as what it emits and where it goes on. */
  lemma FirstPiece(text: string, i: nat) returns (piece: string, j: nat)
    requires i < |text| && BlankedFrom(text, i).Ok?
    ensures i < j <= |text| && |piece| == j - i && Aligned(text, i, piece)
    ensures BlankedFrom(text, j).Ok? && BlankedFrom(text, i).value == piece + BlankedFrom(text, j).value
    ensures if OpenerAt(text, i) then piece == Blank(text[i..j]) else j == i + 1 && piece == [text[i]]
  {
    if OpenerAt(text, i) {
      j := TokenEnd(text, i).value;
      piece := Blank(text[i..j]);
      BlankIsAligned(text, i, j);
    } else {
      j := i + 1;
      piece := [text[i]];
    }
  }

  // ---------------------------------------------------------------- nothing left to blank

  predicate NoOpener(s: string) {
    forall k :: 0 <= k < |s| ==> !OpenerAt(s, k)
  }

  lemma StartsInSuffix(a: string, b: string, k: nat, pattern: string)
    requires |pattern| == 2
    ensures StartsWith(a + b, pattern, |a| + k) <==> StartsWith(b, pattern, k)
  {
    TwoChars(a + b, |a| + k, pattern);
    TwoChars(b, k, pattern);
  }

  lemma OpenerOfSuffix(a: string, b: string, k: nat)
    requires k < |b|
    ensures OpenerAt(a + b, |a| + k) <==> OpenerAt(b, k)
  {
    assert (a + b)[|a| + k] == b[k];
    StartsInSuffix(a, b, k, OPEN);
    StartsInSuffix(a, b, k, LINE);
  }

  lemma {:induction false} LeavesNoOpener(text: string, i: nat)
    requires i <= |text| && BlankedFrom(text, i).Ok?
    ensures NoOpener(BlankedFrom(text, i).value)
    decreases |text| - i
  {
    if i < |text| {
      var piece, j := FirstPiece(text, i);
      var rest := BlankedFrom(text, j).value;
      LeavesNoOpener(text, j);
      KeepsPositions(text, j);
      forall k | 0 <= k < |piece + rest| ensures !OpenerAt(piece + rest, k) {
        if k >= |piece| {
          OpenerOfSuffix(piece, rest, k - |piece|);
        } else {
          TwoChars(piece + rest, k, OPEN);
          TwoChars(piece + rest, k, LINE);
          TwoChars(text, i, OPEN);
          TwoChars(text, i, LINE);
        }
      }
    }
  }

  /** Text without an opener passes unchanged. */
  lemma {:induction false} PlainTextIsKept(s: string, i: nat)
    requires NoOpener(s) && i <= |s|
    ensures BlankedFrom(s, i) == Ok(s[i..])
    decreases |s| - i
  {
    if i < |s| {
      assert !OpenerAt(s, i);
      PlainTextIsKept(s, i + 1);
      assert BlankedFrom(s, i) == Prepend([s[i]], BlankedFrom(s, i + 1));
      assert s[i..] == [s[i]] + s[i + 1..];
    }
  }

  /** Every accepted text: same length, same line ends, each character kept or blanked, no comment or
      string left, and a second pass changes nothing. */
  lemma BlankTlaLaws(text: string)
    requires BlankedFrom(text, 0).Ok?
    ensures var out := BlankedFrom(text, 0).value;
            && |out| == |text|
            && (forall k :: 0 <= k < |text| ==> out[k] == text[k] || out[k] == BlankChar(text[k]))
            && (forall k :: 0 <= k < |text| ==> (out[k] == '\n' <==> text[k] == '\n'))
            && NoOpener(out)
            && BlankedFrom(out, 0) == Ok(out)
  {
    KeepsPositions(text, 0);
    LeavesNoOpener(text, 0);
    var out := BlankedFrom(text, 0).value;
    AlignedKeepsLines(text, 0, out);
    PlainTextIsKept(out, 0);
    assert out[0..] == out;
  }

  // ---------------------------------------------------------------- lexing is compositional over lines

  predicate EndsALine(a: string) {
    a != "" && a[|a| - 1] == '\n'
  }

  /** Whole lines share no opener or closer with what follows. */
  lemma NoStraddle(a: string, r: string, pattern: string, j: nat)
    requires EndsALine(a) && |pattern| == 2 && pattern[0] != '\n' && j < |a|
    ensures StartsWith(a + r, pattern, j) <==> StartsWith(a, pattern, j)
  {
    TwoChars(a + r, j, pattern);
    TwoChars(a, j, pattern);
  }

  lemma {:induction false} CommentEndLocal(a: string, r: string, j: nat, depth: int)
    requires EndsALine(a)
    requires CommentEnd(a, j, depth, OPEN, CLOSE).Some?
    ensures CommentEnd(a + r, j, depth, OPEN, CLOSE) == CommentEnd(a, j, depth, OPEN, CLOSE)
    decreases |a| - j
  {
    NoStraddle(a, r, OPEN, j);
    NoStraddle(a, r, CLOSE, j);
    if StartsWith(a, OPEN, j) {
      CommentEndLocal(a, r, j + 2, depth + 1);
    } else if StartsWith(a, CLOSE, j) {
      if depth != 1 {
        CommentEndLocal(a, r, j + 2, depth - 1);
      }
    } else {
      CommentEndLocal(a, r, j + 1, depth);
    }
  }

  lemma {:induction false} StringEndLocal(a: string, r: string, j: nat)
    requires StringEnd(a, j).Some?
    ensures StringEnd(a + r, j) == StringEnd(a, j)
    decreases |a| - j
  {
    if a[j] != '"' {
      StringEndLocal(a, r, if a[j] == '\\' then j + 2 else j + 1);
    }
  }

  lemma {:induction false} LineEndLocal(a: string, r: string, i: nat)
    requires EndsALine(a) && i < |a|
    ensures LineEnd(a + r, i) == LineEnd(a, i) < |a|
    decreases |a| - i
  {
    if a[i] != '\n' {
      LineEndLocal(a, r, i + 1);
    }
  }

  lemma TokenEndLocal(a: string, r: string, i: nat)
    requires EndsALine(a) && i < |a|
    ensures OpenerAt(a + r, i) <==> OpenerAt(a, i)
    ensures OpenerAt(a, i) && TokenEnd(a, i).Ok? ==> TokenEnd(a + r, i) == TokenEnd(a, i)
  {
    NoStraddle(a, r, OPEN, i);
    NoStraddle(a, r, LINE, i);
    if OpenerAt(a, i) && TokenEnd(a, i).Ok? {
      if StartsWith(a, OPEN, i) {
        CommentEndLocal(a, r, i, 0);
      } else if StartsWith(a, LINE, i) {
        LineEndLocal(a, r, i);
      } else {
        StringEndLocal(a, r, i + 1);
      }
    }
  }

  lemma {:induction false} LexLocal(a: string, r: string, i: nat)
    requires i <= |a| && (i < |a| ==> EndsALine(a)) && BlankedFrom(a, i).Ok?
    ensures BlankedFrom(a + r, i) == Prepend(BlankedFrom(a, i).value, BlankedFrom(a + r, |a|))
    decreases |a| - i
  {
    var tail := BlankedFrom(a + r, |a|);
    if i == |a| {
      assert tail.Ok? ==> "" + tail.value == tail.value;
    } else {
      TokenEndLocal(a, r, i);
      if OpenerAt(a, i) {
        var j := TokenEnd(a, i).value;
        assert (a + r)[i..j] == a[i..j];
        LexLocal(a, r, j);
        Regroup(Blank(a[i..j]), BlankedFrom(a, j).value, tail);
      } else {
        LexLocal(a, r, i + 1);
        Regroup([a[i]], BlankedFrom(a, i + 1).value, tail);
      }
    }
  }

  function Shifted(n: nat, e: Option<nat>): Option<nat> {
    if e.Some? then Some(n + e.value) else None
  }

  lemma {:induction false} CommentEndShift(
    a: string, r: string, j: nat, depth: int, opener: string, closer: string)
    requires |opener| == |closer| == 2
    ensures CommentEnd(a + r, |a| + j, depth, opener, closer) ==
            Shifted(|a|, CommentEnd(r, j, depth, opener, closer))
    decreases |r| - j
  {
    if j < |r| {
      StartsInSuffix(a, r, j, opener);
      StartsInSuffix(a, r, j, closer);
      if StartsWith(r, opener, j) {
        CommentEndShift(a, r, j + 2, depth + 1, opener, closer);
      } else if StartsWith(r, closer, j) {
        if depth != 1 {
          CommentEndShift(a, r, j + 2, depth - 1, opener, closer);
        }
      } else {
        CommentEndShift(a, r, j + 1, depth, opener, closer);
      }
    }
  }

  lemma {:induction false} StringEndShift(a: string, r: string, j: nat)
    ensures StringEnd(a + r, |a| + j) == Shifted(|a|, StringEnd(r, j))
    decreases |r| - j
  {
    if j < |r| {
      assert (a + r)[|a| + j] == r[j];
      StringEndShift(a, r, if r[j] == '\\' then j + 2 else j + 1);
    }
  }

  lemma {:induction false} LineEndShift(a: string, r: string, i: nat)
    requires i <= |r|
    ensures LineEnd(a + r, |a| + i) == |a| + LineEnd(r, i)
    decreases |r| - i
  {
    if i < |r| && r[i] != '\n' {
      LineEndShift(a, r, i + 1);
    }
  }

  lemma TokenEndShift(a: string, r: string, i: nat)
    requires i < |r|
    ensures OpenerAt(a + r, |a| + i) <==> OpenerAt(r, i)
    ensures OpenerAt(r, i) ==>
      var e, e' := TokenEnd(r, i), TokenEnd(a + r, |a| + i);
      if e.Ok? then e' == Ok(|a| + e.value) else e' == e
  {
    OpenerOfSuffix(a, r, i);
    if OpenerAt(r, i) {
      StartsInSuffix(a, r, i, OPEN);
      StartsInSuffix(a, r, i, LINE);
      if StartsWith(r, OPEN, i) {
        CommentEndShift(a, r, i, 0, OPEN, CLOSE);
      } else if StartsWith(r, LINE, i) {
        LineEndShift(a, r, i);
      } else {
        StringEndShift(a, r, i + 1);
      }
    }
  }

  lemma {:induction false} LexShift(a: string, r: string, i: nat)
    requires i <= |r|
    ensures BlankedFrom(a + r, |a| + i) == BlankedFrom(r, i)
    decreases |r| - i
  {
    if i < |r| {
      TokenEndShift(a, r, i);
      if !OpenerAt(r, i) {
        LexShift(a, r, i + 1);
      } else if TokenEnd(r, i).Ok? {
        var j := TokenEnd(r, i).value;
        assert (a + r)[|a| + i..|a| + j] == r[i..j];
        LexShift(a, r, j);
      }
    }
  }

  /** Complete lines lex on their own: blanking them with anything after them is blanking both apart. */
  lemma LinesCompose(a: string, r: string)
    requires a == "" || EndsALine(a)
    requires BlankedFrom(a, 0).Ok?
    ensures BlankedFrom(a + r, 0) == Prepend(BlankedFrom(a, 0).value, BlankedFrom(r, 0))
  {
    LexLocal(a, r, 0);
    LexShift(a, r, 0);
  }
}
