/** scripts/claim_proof_bundle_checker.py, `_lex_lean`, `_lex_lean_from` and `_lex_lean_interpolated`: Lean
    source with comments and literals blanked in place, and interpolated strings lexed as code inside
    their braces. */
module LeanLexer {
  import opened Bytes
  import opened Blanking

  const MAX_DEPTH := 64

  /** `str.isalpha`, `str.isalnum` and the class `\w` of the running Python. */
  datatype Unicode = Unicode(alpha: char -> bool, alnum: char -> bool, word: char -> bool)

  datatype Lexed = Lexed(code: string, end: nat)

  predicate IsHex(c: char) {
    '0' <= c <= '9' || 'a' <= c <= 'f' || 'A' <= c <= 'F'
  }

  predicate AllHex(text: string, from: nat, to: nat)
    requires from <= to <= |text|
  {
    forall k :: from <= k < to ==> IsHex(text[k])
  }

  /** The end of a character literal that starts at `i`: a plain character, or an escape. */
  function CharLiteralEnd(text: string, i: nat): (r: Option<nat>)
    ensures r.Some? ==> i < r.value <= |text|
  {
    var n := |text|;
    if i + 2 >= n || text[i] != '\'' then None
    else if text[i + 1] == '\\' then
      if i + 5 < n && text[i + 2] == 'x' && AllHex(text, i + 3, i + 5) && text[i + 5] == '\'' then Some(i + 6)
      else if i + 7 < n && text[i + 2] == 'u' && AllHex(text, i + 3, i + 7) && text[i + 7] == '\'' then Some(i + 8)
      else if i + 3 < n && text[i + 2] != '\n' && text[i + 3] == '\'' then Some(i + 4)
      else None
    else if text[i + 1] != '\'' && text[i + 1] != '\n' && text[i + 2] == '\'' then Some(i + 3)
    else None
  }

  function Hashes(text: string, j: nat): (h: nat)
    ensures h > 0 ==> j + h <= |text|
    decreases |text| - j
  {
    if j < |text| && text[j] == '#' then 1 + Hashes(text, j + 1) else 0
  }

  /** `r`, any number of `#`, a quote. */
  predicate RawStringAt(text: string, i: nat) {
    && i < |text| && text[i] == 'r'
    && i + 1 + Hashes(text, i + 1) < |text| && text[i + 1 + Hashes(text, i + 1)] == '"'
  }

  function Find(text: string, pattern: string, from: nat): (r: Option<nat>)
    ensures r.Some? ==> from <= r.value && StartsWith(text, pattern, r.value)
    decreases |text| - from
  {
    if StartsWith(text, pattern, from) then Some(from)
    else if from >= |text| then None
    else Find(text, pattern, from + 1)
  }

  function CloserOf(h: nat): string {
    "\"" + seq(h, _ => '#')
  }

  function RawStringEnd(text: string, i: nat): (r: Option<nat>)
    requires RawStringAt(text, i)
    ensures r.Some? ==> i < r.value <= |text|
  {
    var h := Hashes(text, i + 1);
    var closer := CloserOf(h);
    var j := Find(text, closer, i + h + 2);
    if j.Some? then Some(j.value + |closer|) else None
  }

  /** Where a plain string that is open at `j` ends. */
  function StringEnd(text: string, j: nat): (r: Option<nat>)
    ensures r.Some? ==> j < r.value <= |text|
    decreases |text| - j
  {
    if j >= |text| then None
    else if text[j] == '"' then Some(j + 1)
    else StringEnd(text, if text[j] == '\\' then j + 2 else j + 1)
  }

  predicate ExitAt(u: Unicode, text: string, i: nat) {
    && StartsWith(text, "#exit", i)
    && (i + 5 < |text| ==> !u.word(text[i + 5]) && text[i + 5] !in "'!?.")
  }

  /** Something other than a character of code may begin at `k`. */
  predicate Marked(text: string, k: nat) {
    k < |text| &&
    (StartsWith(text, "/-", k) || StartsWith(text, "--", k) || text[k] == '"' || RawStringAt(text, k) ||
     CharLiteralEnd(text, k).Some?)
  }

  /** Code is only changed at or after a mark. */
  predicate KeptBeforeMarks(text: string, from: nat, out: string) {
    forall k :: 0 <= k < |out| && from + k < |text| && (forall m :: from <= m <= from + k ==> !Marked(text, m)) ==>
      out[k] == text[from + k]
  }

  /** No quote and no comment opener is left. */
  predicate Clean(out: string) {
    && '"' !in out
    && forall k :: 0 <= k < |out| - 1 && (out[k] == '/' || out[k] == '-') ==> out[k + 1] != '-'
  }

  /** A last character that could open a comment with the next one does not. */
  predicate ClosedAt(text: string, i: nat, out: string) {
    out != "" && (out[|out| - 1] == '/' || out[|out| - 1] == '-') ==> i < |text| ==> text[i] != '-'
  }

  /** What a partial result says about the text between `from` and `i`. */
  predicate Faithful(text: string, from: nat, i: nat, out: string) {
    && from <= i <= |text| && |out| == i - from
    && Aligned(text, from, out)
    && KeptBeforeMarks(text, from, out)
    && Clean(out) && ClosedAt(text, i, out)
  }

  /** What replaces a comment or literal that begins at `i` and ends at `j`. */
  predicate Replaces(text: string, i: nat, j: nat, piece: string) {
    && i < j <= |text| && Marked(text, i)
    && |piece| == j - i && Aligned(text, i, piece)
    && Clean(piece) && ClosedAt(text, j, piece) && piece[0] != '-'
  }

  lemma BlankReplaces(text: string, i: nat, j: nat)
    requires i < j <= |text| && Marked(text, i)
    ensures Replaces(text, i, j, Blank(text[i..j]))
  {
  }

  lemma CleanAppend(a: string, b: string)
    requires Clean(a) && Clean(b)
    requires a != "" && b != "" ==> (a[|a| - 1] != '/' && a[|a| - 1] != '-') || b[0] != '-'
    ensures Clean(a + b)
  {
    forall k | 0 <= k < |a + b| - 1 && ((a + b)[k] == '/' || (a + b)[k] == '-') ensures (a + b)[k + 1] != '-' {
      if k >= |a| {
        assert (a + b)[k + 1] == b[k + 1 - |a|];
      }
    }
  }

  /** A blanked token in front of a faithful rest. */
  lemma PiecePrepends(text: string, i: nat, j: nat, piece: string, end: nat, rest: string)
    requires Replaces(text, i, j, piece) && Faithful(text, j, end, rest)
    ensures Faithful(text, i, end, piece + rest)
  {
    AlignedAppend(text, i, piece, rest);
    assert rest != "" ==> rest[0] == text[j] || rest[0] == BlankChar(text[j]);
    CleanAppend(piece, rest);
  }

  /** A character of code in front of a faithful rest. */
  lemma CodePrepends(text: string, i: nat, end: nat, rest: string)
    requires i < |text| && Faithful(text, i + 1, end, rest)
    requires !StartsWith(text, "/-", i) && !StartsWith(text, "--", i) && text[i] != '"'
    ensures Faithful(text, i, end, [text[i]] + rest)
  {
    AlignedAppend(text, i, [text[i]], rest);
    NoOpenerHere(text, i);
    assert rest != "" ==> rest[0] == text[i + 1] || rest[0] == BlankChar(text[i + 1]);
    CleanAppend([text[i]], rest);
    KeptPrepends(text, i, rest);
  }

  lemma NoOpenerHere(text: string, i: nat)
    requires i < |text| && !StartsWith(text, "/-", i) && !StartsWith(text, "--", i)
    ensures i + 1 < |text| && text[i + 1] == '-' ==> text[i] != '/' && text[i] != '-'
  {
    TwoChars(text, i, "/-");
    TwoChars(text, i, "--");
  }

  lemma KeptPrepends(text: string, i: nat, rest: string)
    requires i < |text| && KeptBeforeMarks(text, i + 1, rest)
    ensures KeptBeforeMarks(text, i, [text[i]] + rest)
  {
    var out := [text[i]] + rest;
    forall k | 0 <= k < |out| && i + k < |text| && (forall m :: i <= m <= i + k ==> !Marked(text, m))
      ensures out[k] == text[i + k]
    {
      if k > 0 {
        assert out[k] == rest[k - 1];
        assert i + 1 + (k - 1) == i + k;
      }
    }
  }

  // ---------------------------------------------------------------- what is lexed to what

  function Prepend(head: string, r: Result<Lexed, LexError>): Result<Lexed, LexError> {
    if r.Ok? then Ok(Lexed(head + r.value.code, r.value.end)) else r
  }

  function Blanked(text: string, i: nat, end: Option<nat>, missing: LexError): Result<Option<Lexed>, LexError> {
    if end.Some? && i <= end.value <= |text| then Ok(Some(Lexed(Blank(text[i..end.value]), end.value)))
    else Refused(missing)
  }

  /** Whether an identifier goes on, or begins, with a character of code. */
  predicate IdentAfter(u: Unicode, inIdent: bool, c: char) {
    if inIdent then u.alnum(c) || c in "_'!?" else u.alpha(c) || c == '_'
  }

  /** The comment or literal that begins at `i`, blanked; `None` where code goes on. */
  function TokenAt(u: Unicode, text: string, i: nat, inIdent: bool, depth: nat): (r: Result<Option<Lexed>, LexError>)
    requires i < |text| && depth <= MAX_DEPTH
    ensures r.Ok? && r.value.Some? ==> i < r.value.value.end <= |text|
    decreases MAX_DEPTH - depth, 2, 0
  {
    if StartsWith(text, "/-", i) then Blanked(text, i, CommentEnd(text, i, 0, "/-", "-/"), UnterminatedComment)
    else if StartsWith(text, "--", i) then
      DashAdvances(text, i);
      Ok(Some(Lexed(Blank(text[i..LineEnd(text, i)]), LineEnd(text, i))))
    else if !inIdent && RawStringAt(text, i) then Blanked(text, i, RawStringEnd(text, i), UnterminatedRawString)
    else if text[i] == '"' && inIdent && i > 0 && text[i - 1] == '!' then
      if depth == MAX_DEPTH then Refused(NestsTooDeeply)
      else
        var piece := Prepend(" ", InterpolatedFrom(u, text, i + 1, depth));
        if piece.Refused? then Refused(piece.why) else Ok(Some(piece.value))
    else if text[i] == '"' then Blanked(text, i, StringEnd(text, i + 1), UnterminatedString)
    else if !inIdent && CharLiteralEnd(text, i).Some? then Blanked(text, i, CharLiteralEnd(text, i), UnterminatedString)
    else Ok(None)
  }

  /** The rest of an interpolated string from `j` on: text blanked, each `{…}` lexed as code. */
  function InterpolatedFrom(u: Unicode, text: string, j: nat, depth: nat): (r: Result<Lexed, LexError>)
    requires depth < MAX_DEPTH
    ensures r.Ok? ==> j < r.value.end <= |text|
    decreases MAX_DEPTH - depth, 1, |text| - j
  {
    if j >= |text| then Refused(UnterminatedInterpolation)
    else if text[j] == '\\' then
      Prepend(Blank(text[j..if j + 2 <= |text| then j + 2 else |text|]), InterpolatedFrom(u, text, j + 2, depth))
    else if text[j] == '"' then Ok(Lexed(" ", j + 1))
    else if text[j] == '{' then
      var inner := CodeFrom(u, text, j + 1, true, depth + 1, false, 0);
      if inner.Refused? then inner
      else Prepend(" " + inner.value.code + " ", InterpolatedFrom(u, text, inner.value.end + 1, depth))
    else Prepend([BlankChar(text[j])], InterpolatedFrom(u, text, j + 1, depth))
  }

  /** Code from `i` on: to the end, to a `#exit`, or to the brace that closes an interpolation. */
  function CodeFrom(
    u: Unicode, text: string, i: nat, stop: bool, depth: nat, inIdent: bool, braces: int): (r: Result<Lexed, LexError>)
    requires depth <= MAX_DEPTH && i <= |text|
    ensures r.Ok? ==> i <= r.value.end <= |text|
    decreases MAX_DEPTH - depth, 3, |text| - i
  {
    if i == |text| then if stop then Refused(UnterminatedBrace) else Ok(Lexed("", i))
    else
      var token := TokenAt(u, text, i, inIdent, depth);
      if token.Refused? then Refused(token.why)
      else if token.value.Some? then
        Prepend(token.value.value.code, CodeFrom(u, text, token.value.value.end, stop, depth, false, braces))
      else if text[i] == '#' && !inIdent && ExitAt(u, text, i) then
        if stop then Refused(UnterminatedBrace) else Ok(Lexed("#exit", i))
      else if stop && text[i] == '}' && braces == 0 then Ok(Lexed("", i))
      else
        var ident, nest := IdentAfter(u, inIdent, text[i]), BracesAfter(stop, braces, text[i]);
        Prepend([text[i]], CodeFrom(u, text, i + 1, stop, depth, ident, nest))
  }

  function BracesAfter(stop: bool, braces: int, c: char): int {
    if stop && c == '{' then braces + 1 else if stop && c == '}' then braces - 1 else braces
  }

  lemma Regroup(a: string, b: string, r: Result<Lexed, LexError>)
    ensures Prepend(a, Prepend(b, r)) == Prepend(a + b, r)
  {
    if r.Ok? {
      assert a + (b + r.value.code) == (a + b) + r.value.code;
    }
  }

  lemma DashAdvances(text: string, i: nat)
    requires StartsWith(text, "--", i)
    ensures i < LineEnd(text, i) && Blank(text[i..LineEnd(text, i)]) == seq(LineEnd(text, i) - i, _ => ' ')
  {
    assert text[i + 0] == "--"[0];
  }

  // ---------------------------------------------------------------- the loops

  /** What the character at `j` of an interpolated string, or the code in the braces it opens, becomes. */
  method LexPiece(u: Unicode, text: string, j: nat, depth: nat) returns (r: Result<Lexed, LexError>)
    requires j < |text| && depth < MAX_DEPTH && text[j] != '"'
    ensures r.Refused? ==> InterpolatedFrom(u, text, j, depth) == Refused(r.why)
    ensures r.Ok? ==> r.value.end > j
    ensures r.Ok? ==>
      InterpolatedFrom(u, text, j, depth) == Prepend(r.value.code, InterpolatedFrom(u, text, r.value.end, depth))
    decreases MAX_DEPTH - depth, 0, 0
  {
    var c := text[j];
    if c == '\\' {
      r := Ok(Lexed(Blank(text[j..if j + 2 <= |text| then j + 2 else |text|]), j + 2));
    } else if c == '{' {
      var inner := LexFrom(u, text, j + 1, true, depth + 1);
      r := if inner.Refused? then inner else Ok(Lexed(" " + inner.value.code + " ", inner.value.end + 1));
    } else {
      r := Ok(Lexed([BlankChar(c)], j + 1));
    }
  }

  method LexInterpolated(u: Unicode, text: string, i: nat, depth: nat) returns (r: Result<Lexed, LexError>)
    requires i < |text| && depth <= MAX_DEPTH
    ensures r == if depth == MAX_DEPTH then Refused(NestsTooDeeply)
                 else Prepend(" ", InterpolatedFrom(u, text, i + 1, depth))
    decreases MAX_DEPTH - depth, 0, 1
  {
    if depth >= MAX_DEPTH {
      return Refused(NestsTooDeeply);
    }
    var out, j := " ", i + 1;
    ghost var whole := Prepend(" ", InterpolatedFrom(u, text, i + 1, depth));
    while j < |text|
      invariant j > i && whole == Prepend(out, InterpolatedFrom(u, text, j, depth))
    {
      if text[j] == '"' {
        return Ok(Lexed(out + " ", j + 1));
      }
      var piece := LexPiece(u, text, j, depth);
      if piece.Refused? {
        return piece;
      }
      Regroup(out, piece.value.code, InterpolatedFrom(u, text, piece.value.end, depth));
      out := out + piece.value.code;
      j := piece.value.end;
    }
    return Refused(UnterminatedInterpolation);
  }

  method EndOfString(text: string, i: nat) returns (r: Option<nat>)
    requires i < |text|
    ensures r == StringEnd(text, i + 1)
  {
    var j := i + 1;
    while j < |text| && text[j] != '"'
      invariant j > i && StringEnd(text, i + 1) == StringEnd(text, j)
    {
      j := j + if text[j] == '\\' then 2 else 1;
    }
    return if j >= |text| then None else Some(j + 1);
  }

  method LexToken(u: Unicode, text: string, i: nat, inIdent: bool, depth: nat)
    returns (r: Result<Option<Lexed>, LexError>)
    requires i < |text| && depth <= MAX_DEPTH
    ensures r == TokenAt(u, text, i, inIdent, depth)
    decreases MAX_DEPTH - depth, 1
  {
    var ch, end := text[i], i;
    if StartsWith(text, "/-", i) {
      var j := NestedCommentEnd(text, i, "/-", "-/");
      if j.Refused? {
        return Refused(UnterminatedComment);
      }
      end := j.value;
    } else if StartsWith(text, "--", i) {
      DashAdvances(text, i);
      end := LineEnd(text, i);
      return Ok(Some(Lexed(seq(end - i, _ => ' '), end)));
    } else if ch == 'r' && !inIdent && RawStringAt(text, i) {
      var j := RawStringEnd(text, i);
      if j.None? {
        return Refused(UnterminatedRawString);
      }
      end := j.value;
    } else if ch == '"' && inIdent && i > 0 && text[i - 1] == '!' {
      var piece := LexInterpolated(u, text, i, depth);
      return if piece.Refused? then Refused(piece.why) else Ok(Some(piece.value));
    } else if ch == '"' {
      var j := EndOfString(text, i);
      if j.None? {
        return Refused(UnterminatedString);
      }
      end := j.value;
    } else if ch == '\'' && !inIdent && CharLiteralEnd(text, i).Some? {
      end := CharLiteralEnd(text, i).value;
    } else {
      return Ok(None);
    }
    return Ok(Some(Lexed(Blank(text[i..end]), end)));
  }

  /** One turn of the loop: it ends the lexing, or goes on behind a piece. */
  datatype Turn = Stop(r: Result<Lexed, LexError>) | Go(piece: string, next: nat, inIdent: bool, braces: int)

  method LexTurn(u: Unicode, text: string, i: nat, stopAtBrace: bool, depth: nat, inIdent: bool, braces: int)
    returns (t: Turn)
    requires i < |text| && depth <= MAX_DEPTH
    ensures t.Stop? ==> CodeFrom(u, text, i, stopAtBrace, depth, inIdent, braces) == t.r
    ensures t.Go? ==> i < t.next <= |text|
    ensures t.Go? ==>
      CodeFrom(u, text, i, stopAtBrace, depth, inIdent, braces) ==
      Prepend(t.piece, CodeFrom(u, text, t.next, stopAtBrace, depth, t.inIdent, t.braces))
    decreases MAX_DEPTH - depth, 2
  {
    var ch := text[i];
    var token := LexToken(u, text, i, inIdent, depth);
    if token.Refused? {
      return Stop(Refused(token.why));
    } else if token.value.Some? {
      return Go(token.value.value.code, token.value.value.end, false, braces);
    } else if ch == '#' && !inIdent && ExitAt(u, text, i) {
      return Stop(if stopAtBrace then Refused(UnterminatedBrace) else Ok(Lexed("#exit", i)));
    } else if stopAtBrace && ch == '}' && braces == 0 {
      return Stop(Ok(Lexed("", i)));
    }
    var nest := braces;
    if stopAtBrace && ch == '{' {
      nest := braces + 1;
    } else if stopAtBrace && ch == '}' {
      nest := braces - 1;
    }
    var ident := if inIdent then u.alnum(ch) || ch in "_'!?" else u.alpha(ch) || ch == '_';
    return Go([ch], i + 1, ident, nest);
  }

  method LexFrom(u: Unicode, text: string, start: nat, stopAtBrace: bool, depth: nat)
    returns (r: Result<Lexed, LexError>)
    requires start <= |text| && depth <= MAX_DEPTH
    ensures r == CodeFrom(u, text, start, stopAtBrace, depth, false, 0)
    decreases MAX_DEPTH - depth, 3
  {
    var out, i, inIdent, braces := "", start, false, 0;
    ghost var whole := CodeFrom(u, text, start, stopAtBrace, depth, false, 0);
    assert whole.Ok? ==> "" + whole.value.code == whole.value.code;
    while i < |text|
      invariant i <= |text| && whole == Prepend(out, CodeFrom(u, text, i, stopAtBrace, depth, inIdent, braces))
      decreases |text| - i
    {
      var turn := LexTurn(u, text, i, stopAtBrace, depth, inIdent, braces);
      if turn.Stop? {
        return Prepend(out, turn.r);
      }
      Regroup(out, turn.piece, CodeFrom(u, text, turn.next, stopAtBrace, depth, turn.inIdent, turn.braces));
      out, i, inIdent, braces := out + turn.piece, turn.next, turn.inIdent, turn.braces;
    }
    assert out + "" == out;
    return if stopAtBrace then Refused(UnterminatedBrace) else Ok(Lexed(out, i));
  }

  function LexedLean(u: Unicode, text: string): Result<string, LexError> {
    var r := CodeFrom(u, text, 0, false, 0, false, 0);
    if r.Ok? then Ok(r.value.code) else Refused(r.why)
  }

  method LexLean(u: Unicode, text: string) returns (r: Result<string, LexError>)
    ensures r == LexedLean(u, text)
  {
    var lexed := LexFrom(u, text, 0, false, 0);
    return if lexed.Ok? then Ok(lexed.value.code) else Refused(lexed.why);
  }

  // ---------------------------------------------------------------- positions

  /** The blanked rest of an interpolated string from `j` to its end. */
  predicate BlanksRest(text: string, j: nat, end: nat, rest: string) {
    j < end <= |text| && |rest| == end - j && Aligned(text, j, rest) && Clean(rest) && rest[|rest| - 1] == ' '
  }

  lemma BlankPrepends(text: string, j: nat, next: nat, piece: string, end: nat, rest: string)
    requires j < next && |piece| == next - j && Aligned(text, j, piece) && Clean(piece)
    requires piece[|piece| - 1] == ' ' || piece[|piece| - 1] == '\n'
    requires BlanksRest(text, next, end, rest)
    ensures BlanksRest(text, j, end, piece + rest)
  {
    AlignedAppend(text, j, piece, rest);
    CleanAppend(piece, rest);
  }

  /** The code in braces, and what follows it. */
  lemma BraceOpens(u: Unicode, text: string, j: nat, depth: nat) returns (inner: Lexed, rest: Lexed)
    requires depth < MAX_DEPTH && j < |text| && text[j] == '{' && InterpolatedFrom(u, text, j, depth).Ok?
    ensures CodeFrom(u, text, j + 1, true, depth + 1, false, 0) == Ok(inner)
    ensures InterpolatedFrom(u, text, inner.end + 1, depth) == Ok(rest)
    ensures InterpolatedFrom(u, text, j, depth) == Ok(Lexed(" " + inner.code + " " + rest.code, rest.end))
  {
    inner := CodeFrom(u, text, j + 1, true, depth + 1, false, 0).value;
    rest := InterpolatedFrom(u, text, inner.end + 1, depth).value;
  }

  lemma {:induction false} InterpolatedKeeps(u: Unicode, text: string, j: nat, depth: nat)
    requires depth < MAX_DEPTH && InterpolatedFrom(u, text, j, depth).Ok?
    ensures var r := InterpolatedFrom(u, text, j, depth).value; BlanksRest(text, j, r.end, r.code)
    decreases MAX_DEPTH - depth, 1, |text| - j
  {
    if text[j] != '"' {
      var piece, next := PieceKeeps(u, text, j, depth);
      InterpolatedKeeps(u, text, next, depth);
      var rest := InterpolatedFrom(u, text, next, depth).value;
      BlankPrepends(text, j, next, piece, rest.end, rest.code);
    }
  }

  /** What the character at `j`, or the code in the braces it opens, becomes; it ends in a blank. */
  predicate EndsInBlank(text: string, j: nat, next: nat, piece: string) {
    && j < next && |piece| == next - j && Aligned(text, j, piece) && Clean(piece)
    && (piece[|piece| - 1] == ' ' || piece[|piece| - 1] == '\n')
  }

  lemma {:induction false} PieceKeeps(u: Unicode, text: string, j: nat, depth: nat) returns (piece: string, next: nat)
    requires depth < MAX_DEPTH && j < |text| && text[j] != '"' && InterpolatedFrom(u, text, j, depth).Ok?
    ensures InterpolatedFrom(u, text, next, depth).Ok? && EndsInBlank(text, j, next, piece)
    ensures InterpolatedFrom(u, text, j, depth) == Prepend(piece, InterpolatedFrom(u, text, next, depth))
    decreases MAX_DEPTH - depth, 0
  {
    if text[j] == '{' {
      var inner, rest := BraceOpens(u, text, j, depth);
      CodeKeeps(u, text, j + 1, true, depth + 1, false, 0);
      piece, next := " " + inner.code + " ", inner.end + 1;
      BracesPrepend(text, j, inner.code, inner.end);
    } else if text[j] == '\\' {
      piece, next := Blank(text[j..j + 2]), j + 2;
    } else {
      piece, next := [BlankChar(text[j])], j + 1;
    }
  }

  lemma BracesPrepend(text: string, j: nat, code: string, brace: nat)
    requires j < |text| && text[j] == '{' && brace < |text| && text[brace] == '}'
    requires Aligned(text, j + 1, code) && |code| == brace - (j + 1) && Clean(code)
    ensures EndsInBlank(text, j, brace + 1, " " + code + " ")
  {
    AlignedAppend(text, j, " ", code);
    AlignedAppend(text, j, " " + code, " ");
    CleanAppend(" ", code);
    CleanAppend(" " + code, " ");
  }

  lemma {:induction false} TokenKeeps(u: Unicode, text: string, i: nat, inIdent: bool, depth: nat)
    requires i < |text| && depth <= MAX_DEPTH && TokenAt(u, text, i, inIdent, depth).Ok?
    ensures var t := TokenAt(u, text, i, inIdent, depth).value;
      if t.Some? then Replaces(text, i, t.value.end, t.value.code)
      else !StartsWith(text, "/-", i) && !StartsWith(text, "--", i) && text[i] != '"'
    decreases MAX_DEPTH - depth, 2, 0
  {
    var t := TokenAt(u, text, i, inIdent, depth).value;
    if t.Some? {
      if IsInterpolated(text, i, inIdent) {
        InterpolatedKeeps(u, text, i + 1, depth);
        var rest := InterpolatedFrom(u, text, i + 1, depth).value;
        BlankPrepends(text, i, i + 1, " ", rest.end, rest.code);
      } else {
        BlankReplaces(text, i, t.value.end);
      }
    }
  }

  predicate IsInterpolated(text: string, i: nat, inIdent: bool)
    requires i < |text|
  {
    && !StartsWith(text, "/-", i) && !StartsWith(text, "--", i) && (inIdent || !RawStringAt(text, i))
    && text[i] == '"' && inIdent && i > 0 && text[i - 1] == '!'
  }

  /** Lexing stopped at a `#exit` command, which is kept, with nothing dropped before it. */
  predicate Exited(u: Unicode, text: string, from: nat, lexed: Lexed) {
    && ExitAt(u, text, lexed.end)
    && |lexed.code| >= 5 && lexed.code[|lexed.code| - 5..] == "#exit"
    && Faithful(text, from, lexed.end, lexed.code[..|lexed.code| - 5])
  }

  /** What code from `i` on is lexed to: faithful to the closing brace, to the end, or to a `#exit`. */
  predicate Keeps(u: Unicode, text: string, i: nat, stop: bool, lexed: Lexed) {
    if stop then Faithful(text, i, lexed.end, lexed.code) && lexed.end < |text| && text[lexed.end] == '}'
    else Exited(u, text, i, lexed) || (lexed.end == |text| && Faithful(text, i, |text|, lexed.code))
  }

  lemma SplitTail(piece: string, code: string)
    requires |code| >= 5
    ensures (piece + code)[..|piece + code| - 5] == piece + code[..|code| - 5]
    ensures (piece + code)[|piece + code| - 5..] == code[|code| - 5..]
  {
  }

  lemma {:induction false} CodeKeeps(
    u: Unicode, text: string, i: nat, stop: bool, depth: nat, inIdent: bool, braces: int)
    requires depth <= MAX_DEPTH && i <= |text| && CodeFrom(u, text, i, stop, depth, inIdent, braces).Ok?
    ensures Keeps(u, text, i, stop, CodeFrom(u, text, i, stop, depth, inIdent, braces).value)
    decreases MAX_DEPTH - depth, 3, |text| - i
  {
    NothingKeeps(text, i);
    if i < |text| {
      var token := TokenAt(u, text, i, inIdent, depth).value;
      TokenKeeps(u, text, i, inIdent, depth);
      if token.Some? {
        var Lexed(piece, j) := token.value;
        CodeKeeps(u, text, j, stop, depth, false, braces);
        PieceThenKeeps(u, text, i, j, piece, stop, CodeFrom(u, text, j, stop, depth, false, braces).value);
      } else if text[i] == '#' && !inIdent && ExitAt(u, text, i) {
        ExitKeepsAll(u, text, i);
      } else if !(stop && text[i] == '}' && braces == 0) {
        var ident, nest := IdentAfter(u, inIdent, text[i]), BracesAfter(stop, braces, text[i]);
        CodeKeeps(u, text, i + 1, stop, depth, ident, nest);
        CodeThenKeeps(u, text, i, stop, CodeFrom(u, text, i + 1, stop, depth, ident, nest).value);
      }
    }
  }

  lemma NothingKeeps(text: string, i: nat)
    requires i <= |text|
    ensures Faithful(text, i, i, "")
  {
  }

  lemma ExitKeepsAll(u: Unicode, text: string, i: nat)
    requires ExitAt(u, text, i)
    ensures Keeps(u, text, i, false, Lexed("#exit", i))
  {
    NothingKeeps(text, i);
    assert "#exit"[..0] == "" && "#exit"[0..] == "#exit";
  }

  lemma PieceThenKeeps(u: Unicode, text: string, i: nat, j: nat, piece: string, stop: bool, rest: Lexed)
    requires Replaces(text, i, j, piece) && Keeps(u, text, j, stop, rest)
    ensures Keeps(u, text, i, stop, Lexed(piece + rest.code, rest.end))
  {
    if !stop && Exited(u, text, j, rest) {
      SplitTail(piece, rest.code);
      PiecePrepends(text, i, j, piece, rest.end, rest.code[..|rest.code| - 5]);
    } else {
      PiecePrepends(text, i, j, piece, rest.end, rest.code);
    }
  }

  lemma CodeThenKeeps(u: Unicode, text: string, i: nat, stop: bool, rest: Lexed)
    requires i < |text| && Keeps(u, text, i + 1, stop, rest)
    requires !StartsWith(text, "/-", i) && !StartsWith(text, "--", i) && text[i] != '"'
    ensures Keeps(u, text, i, stop, Lexed([text[i]] + rest.code, rest.end))
  {
    if !stop && Exited(u, text, i + 1, rest) {
      SplitTail([text[i]], rest.code);
      CodePrepends(text, i, rest.end, rest.code[..|rest.code| - 5]);
    } else {
      CodePrepends(text, i, rest.end, rest.code);
    }
  }

  /** Every accepted text: positions and line ends are kept up to a `#exit`, nothing is changed before the first
      comment or literal, and no quote or comment opener is left. */
  lemma LexLeanLaws(u: Unicode, text: string)
    requires LexedLean(u, text).Ok?
    ensures var out := LexedLean(u, text).value;
      var n := |out|;
      && Aligned(text, 0, out)
      && (forall k :: 0 <= k < n ==> (out[k] == '\n' <==> text[k] == '\n'))
      && (n == |text| || (n >= 5 && ExitAt(u, text, n - 5) && out[n - 5..] == "#exit"))
      && KeptBeforeMarks(text, 0, out)
      && Clean(out)
  {
    var lexed := CodeFrom(u, text, 0, false, 0, false, 0).value;
    CodeKeeps(u, text, 0, false, 0, false, 0);
    if Exited(u, text, 0, lexed) {
      ExitKeeps(u, text, lexed);
    }
    AlignedKeepsLines(text, 0, lexed.code);
  }

  lemma ExitKeeps(u: Unicode, text: string, lexed: Lexed)
    requires Exited(u, text, 0, lexed)
    ensures Aligned(text, 0, lexed.code) && KeptBeforeMarks(text, 0, lexed.code) && Clean(lexed.code)
  {
    var n := |lexed.code| - 5;
    assert lexed.code == lexed.code[..n] + lexed.code[n..];
    TailKeeps(text, lexed.code[..n], lexed.code[n..]);
  }

  lemma TailKeeps(text: string, out: string, tail: string)
    requires Faithful(text, 0, |out|, out) && StartsWith(text, tail, |out|)
    requires Clean(tail) && (tail != "" ==> tail[0] != '-')
    ensures Aligned(text, 0, out + tail) && KeptBeforeMarks(text, 0, out + tail) && Clean(out + tail)
  {
    AlignedAppend(text, 0, out, tail);
    CleanAppend(out, tail);
  }
}
