/** What `_lex_lean` does to every character: code is kept, comments and literals are blanked, and a second pass changes
    nothing. */
module LeanLaws {
  import opened Bytes
  import opened Blanking
  import opened LeanLexer

  // ---------------------------------------------------------------- every character explained

  /** One character of code, or a whole comment or literal; `ident` says whether an identifier is open in front. */
  datatype Piece = Piece(from: nat, to: nat, ident: bool, token: bool)

  /** Code is kept where no comment or literal begins; a comment or literal becomes what it is lexed to, blanks
      unless it is an interpolated string. */
  predicate PieceOk(u: Unicode, text: string, out: string, p: Piece) {
    && p.from < p.to <= |out| && p.to <= |text|
    && var lexed := TokenAt(u, text, p.from, p.ident, 0);
       if p.token then
         && lexed == Ok(Some(Lexed(out[p.from..p.to], p.to)))
         && (!IsInterpolated(text, p.from, p.ident) ==> out[p.from..p.to] == Blank(text[p.from..p.to]))
       else p.to == p.from + 1 && lexed == Ok(None) && out[p.from] == text[p.from]
  }

  /** The pieces lie side by side from `i` to `end`. */
  predicate Tiled(u: Unicode, text: string, out: string, i: nat, open: bool, end: nat, ps: seq<Piece>)
    decreases |ps|
  {
    if ps == [] then i == end
    else
      var p := ps[0];
      && p.from == i && p.ident == open && PieceOk(u, text, out, p)
      && Tiled(u, text, out, p.to, !p.token && IdentAfter(u, open, text[i]), end, ps[1..])
  }

  /** Where the lexed text ends: with the text, or in front of a `#exit`. */
  predicate Ends(u: Unicode, text: string, out: string, end: nat) {
    || (end == |out| == |text|)
    || (end + 5 == |out| && out[end..] == "#exit" && ExitAt(u, text, end))
  }

  lemma {:induction false} CodeTiles(u: Unicode, text: string, i: nat, open: bool, out: string)
    returns (end: nat, ps: seq<Piece>)
    requires i <= |text| && i <= |out| && CodeFrom(u, text, i, false, 0, open, 0).Ok?
    requires out[i..] == CodeFrom(u, text, i, false, 0, open, 0).value.code
    ensures Tiled(u, text, out, i, open, end, ps) && Ends(u, text, out, end)
    decreases |text| - i
  {
    if i == |text| || (TokenAt(u, text, i, open, 0) == Ok(None) && Stops(u, text, i, false, open, 0)) {
      StopCode(u, text, i, false, 0, open, 0);
      return i, [];
    }
    var token := TokenAt(u, text, i, open, 0).value;
    var to, ident := i + 1, IdentAfter(u, open, text[i]);
    if token.Some? {
      AfterToken(u, text, i, false, 0, open, 0);
      to, ident := token.value.end, false;
    } else {
      AfterCode(u, text, i, false, 0, open, 0);
    }
    var rest := CodeFrom(u, text, to, false, 0, ident, 0).value.code;
    var p := Piece(i, to, open, token.Some?);
    PieceFits(u, text, out, p, rest);
    end, ps := CodeTiles(u, text, to, ident, out);
    ps := [p] + ps;
  }

  lemma PieceFits(u: Unicode, text: string, out: string, p: Piece, rest: string)
    requires p.from < |text| && p.from <= |out| && TokenAt(u, text, p.from, p.ident, 0).Ok?
    requires var t := TokenAt(u, text, p.from, p.ident, 0).value;
      && p.token == t.Some? && p.to == (if t.Some? then t.value.end else p.from + 1)
      && out[p.from..] == (if t.Some? then t.value.code else [text[p.from]]) + rest
    ensures PieceOk(u, text, out, p) && p.to <= |out| && out[p.to..] == rest
  {
    var t := TokenAt(u, text, p.from, p.ident, 0).value;
    TokenLength(u, text, p.from, p.ident, 0);
    Cut(out, p.from, if t.Some? then t.value.code else [text[p.from]], rest);
    assert t.None? ==> out[p.from] == out[p.from..p.to][0];
  }

  lemma Cut(out: string, i: nat, code: string, rest: string)
    requires i <= |out| && out[i..] == code + rest
    ensures i + |code| <= |out| && out[i..i + |code|] == code && out[i + |code|..] == rest
  {
    assert out[i..i + |code|] == out[i..][..|code|];
    assert out[i + |code|..] == out[i..][|code|..];
  }

  lemma TokenLength(u: Unicode, text: string, i: nat, inIdent: bool, depth: nat)
    requires i < |text| && depth <= MAX_DEPTH && TokenAt(u, text, i, inIdent, depth).Ok?
    ensures var t := TokenAt(u, text, i, inIdent, depth).value;
      t.Some? ==> |t.value.code| == t.value.end - i &&
                  (!IsInterpolated(text, i, inIdent) ==> t.value.code == Blank(text[i..t.value.end]))
  {
    TokenKeeps(u, text, i, inIdent, depth);
  }

  /** The text is a row of code characters, all kept, and comments and literals, each lexed on its own, up to the end or
      to a `#exit`. */
  lemma CodeIsKept(u: Unicode, text: string) returns (end: nat, ps: seq<Piece>)
    requires LexedLean(u, text).Ok?
    ensures var out := LexedLean(u, text).value; Tiled(u, text, out, 0, false, end, ps) && Ends(u, text, out, end)
  {
    var out := LexedLean(u, text).value;
    assert out[0..] == out;
    end, ps := CodeTiles(u, text, 0, false, out);
  }

  // ---------------------------------------------------------------- which characters are code

  /** For each character whether it is blanked (`None`), or is code and stands in an identifier or not. */
  type Mask = seq<Option<bool>>

  /** Nothing else begins here. */
  predicate CodeHere(u: Unicode, text: string, k: nat, ident: bool) {
    k < |text| && text[k] != '"' && (!ident ==> CharLiteralEnd(text, k).None? && !ExitAt(u, text, k))
  }

  /** A comment or literal may begin here, or an interpolation may end. */
  predicate Breaks(c: char, ident: bool) {
    !ident || c in "/-\"}"
  }

  /** Whether an identifier is open behind a character. */
  predicate OpenAfter(u: Unicode, m: Option<bool>, c: char) {
    m.Some? && IdentAfter(u, m.value, c)
  }

  predicate MarkOk(u: Unicode, text: string, from: nat, out: string, mask: Mask, k: nat)
    requires k < |mask| == |out| && from + |out| <= |text|
  {
    if mask[k].Some? then out[k] == text[from + k] && CodeHere(u, text, from + k, mask[k].value)
    else out[k] == BlankChar(text[from + k])
  }

  /** What one mark says about the next: the state goes on, and a blank follows code only where something may begin. */
  predicate Follows(u: Unicode, text: string, from: nat, out: string, mask: Mask, k: nat)
    requires 0 < k < |mask| == |out| && from + |out| <= |text|
  {
    var open := OpenAfter(u, mask[k - 1], out[k - 1]);
    if mask[k].Some? then mask[k].value == open else mask[k - 1].Some? ==> Breaks(text[from + k], open)
  }

  /** A blank has another one beside it; the first one may have it in front of the text, and the last one behind it. */
  predicate Paired(mask: Mask, behind: bool, ahead: bool, k: nat)
    requires k < |mask|
  {
    mask[k].None? ==>
      || (k == 0 && behind) || (k + 1 == |mask| && ahead)
      || (k > 0 && mask[k - 1].None?) || (k + 1 < |mask| && mask[k + 1].None?)
  }

  predicate Traced(u: Unicode, text: string, from: nat, out: string, mask: Mask, behind: bool, ahead: bool) {
    && |mask| == |out| && from + |out| <= |text|
    && (forall k: nat :: k < |mask| ==> MarkOk(u, text, from, out, mask, k))
    && (forall k: nat :: 0 < k < |mask| ==> Follows(u, text, from, out, mask, k))
    && forall k: nat :: k < |mask| ==> Paired(mask, behind, ahead, k)
  }

  /** The first mark fits the state it is met in. */
  predicate Begins(text: string, from: nat, mask: Mask, open: bool) {
    mask != [] && from < |text| ==> if mask[0].Some? then mask[0].value == open else Breaks(text[from], open)
  }

  predicate EndsBlank(mask: Mask) {
    mask != [] && mask[|mask| - 1].None?
  }

  predicate BeginsBlank(mask: Mask) {
    mask != [] && mask[0].None?
  }

  /** The state behind a traced text that was met in state `open`. */
  predicate LeftOpen(u: Unicode, out: string, mask: Mask, open: bool)
    requires |mask| == |out|
  {
    if mask == [] then open else OpenAfter(u, mask[|mask| - 1], out[|out| - 1])
  }

  lemma TracedAppend(
    u: Unicode, text: string, from: nat, a: string, ma: Mask, behindA: bool, aheadA: bool,
    b: string, mb: Mask, behindB: bool, aheadB: bool)
    requires Traced(u, text, from, a, ma, behindA, aheadA) && Traced(u, text, from + |a|, b, mb, behindB, aheadB)
    requires a != "" && (behindB ==> EndsBlank(ma)) && (aheadA ==> BeginsBlank(mb))
    requires Begins(text, from + |a|, mb, LeftOpen(u, a, ma, false)) || (EndsBlank(ma) && BeginsBlank(mb))
    ensures Traced(u, text, from, a + b, ma + mb, behindA, aheadB)
  {
    var out, mask, n := a + b, ma + mb, |a|;
    forall k: nat | k < |mask| ensures MarkOk(u, text, from, out, mask, k) && Paired(mask, behindA, aheadB, k) {
      if k < n {
        assert MarkOk(u, text, from, a, ma, k) && Paired(ma, behindA, aheadA, k);
      } else {
        assert MarkOk(u, text, from + n, b, mb, k - n) && Paired(mb, behindB, aheadB, k - n);
      }
    }
    forall k: nat | 0 < k < |mask| ensures Follows(u, text, from, out, mask, k) {
      if k < n {
        assert Follows(u, text, from, a, ma, k);
      } else if k > n {
        assert Follows(u, text, from + n, b, mb, k - n);
      }
    }
  }

  function Blanks(n: nat): (mask: Mask)
    ensures |mask| == n && forall k :: 0 <= k < n ==> mask[k].None?
  {
    seq(n, _ => None)
  }

  lemma BlankTraced(u: Unicode, text: string, from: nat, to: nat, behind: bool, ahead: bool)
    requires from < to <= |text| && (to - from >= 2 || behind || ahead)
    ensures Traced(u, text, from, Blank(text[from..to]), Blanks(to - from), behind, ahead)
  {
  }

  lemma OneBlank(u: Unicode, text: string, at: nat, behind: bool, ahead: bool)
    requires at < |text| && (behind || ahead)
    ensures Traced(u, text, at, [BlankChar(text[at])], Blanks(1), behind, ahead)
  {
    BlankTraced(u, text, at, at + 1, behind, ahead);
    assert Blank(text[at..at + 1]) == [BlankChar(text[at])];
  }

  // ---------------------------------------------------------------- the lexer traced

  lemma {:induction false} InterpolatedTraced(u: Unicode, text: string, j: nat, depth: nat) returns (mask: Mask)
    requires depth < MAX_DEPTH && InterpolatedFrom(u, text, j, depth).Ok?
    ensures Traced(u, text, j, InterpolatedFrom(u, text, j, depth).value.code, mask, true, false)
    ensures BeginsBlank(mask) && EndsBlank(mask)
    decreases MAX_DEPTH - depth, 1, |text| - j
  {
    if text[j] == '\\' {
      var rest := InterpolatedTraced(u, text, j + 2, depth);
      BlankTraced(u, text, j, j + 2, true, false);
      TracedAppend(u, text, j, Blank(text[j..j + 2]), Blanks(2), true, false,
                   InterpolatedFrom(u, text, j + 2, depth).value.code, rest, true, false);
      mask := Blanks(2) + rest;
    } else if text[j] == '"' {
      OneBlank(u, text, j, true, false);
      mask := Blanks(1);
    } else if text[j] == '{' {
      mask := BraceTraced(u, text, j, depth);
    } else {
      var rest := InterpolatedTraced(u, text, j + 1, depth);
      OneBlank(u, text, j, true, false);
      TracedAppend(u, text, j, [BlankChar(text[j])], Blanks(1), true, false,
                   InterpolatedFrom(u, text, j + 1, depth).value.code, rest, true, false);
      mask := Blanks(1) + rest;
    }
  }

  lemma {:induction false} BraceTraced(u: Unicode, text: string, j: nat, depth: nat) returns (mask: Mask)
    requires depth < MAX_DEPTH && j < |text| && text[j] == '{' && InterpolatedFrom(u, text, j, depth).Ok?
    ensures Traced(u, text, j, InterpolatedFrom(u, text, j, depth).value.code, mask, true, false)
    ensures BeginsBlank(mask) && EndsBlank(mask)
    decreases MAX_DEPTH - depth, 1, |text| - j, 0
  {
    var inner, code := AfterBrace(u, text, j, depth);
    var exited, middle := CodeTraced(u, text, j + 1, true, depth + 1, false, 0);
    var rest := InterpolatedTraced(u, text, inner.end + 1, depth);
    AroundBraces(u, text, j, inner, middle, code, rest);
    mask := Blanks(1) + middle + Blanks(1) + rest;
  }

  lemma AfterBrace(u: Unicode, text: string, j: nat, depth: nat) returns (inner: Lexed, code: string)
    requires depth < MAX_DEPTH && j < |text| && text[j] == '{' && InterpolatedFrom(u, text, j, depth).Ok?
    ensures CodeFrom(u, text, j + 1, true, depth + 1, false, 0) == Ok(inner)
    ensures inner.end < |text| && text[inner.end] == '}' && inner.end == j + 1 + |inner.code|
    ensures InterpolatedFrom(u, text, inner.end + 1, depth).Ok?
    ensures InterpolatedFrom(u, text, inner.end + 1, depth).value.code == code
    ensures InterpolatedFrom(u, text, j, depth).value.code == " " + inner.code + " " + code
  {
    var rest;
    inner, rest := BraceOpens(u, text, j, depth);
    code := rest.code;
    CodeKeeps(u, text, j + 1, true, depth + 1, false, 0);
  }

  lemma AroundBraces(u: Unicode, text: string, j: nat, inner: Lexed, middle: Mask, code: string, rest: Mask)
    requires j < |text| && text[j] == '{' && inner.end < |text| && text[inner.end] == '}'
    requires inner.end == j + 1 + |inner.code|
    requires Traced(u, text, j + 1, inner.code, middle, false, false) && Begins(text, j + 1, middle, false)
    requires Traced(u, text, inner.end + 1, code, rest, true, false) && BeginsBlank(rest) && EndsBlank(rest)
    ensures Traced(u, text, j, " " + inner.code + " " + code, Blanks(1) + middle + Blanks(1) + rest, true, false)
  {
    OneBlank(u, text, j, true, false);
    TracedAppend(u, text, j, " ", Blanks(1), true, false, inner.code, middle, false, false);
    OneBlank(u, text, inner.end, false, true);
    TracedAppend(u, text, j, " " + inner.code, Blanks(1) + middle, true, false, " ", Blanks(1), false, true);
    var front := Blanks(1) + middle + Blanks(1);
    TracedAppend(u, text, j, " " + inner.code + " ", front, true, true, code, rest, true, false);
  }

  lemma TokenIsLong(u: Unicode, text: string, i: nat, inIdent: bool, depth: nat)
    requires i < |text| && depth <= MAX_DEPTH && TokenAt(u, text, i, inIdent, depth).Ok?
    ensures var t := TokenAt(u, text, i, inIdent, depth).value;
      t.Some? ==> t.value.end >= i + 2 && Breaks(text[i], inIdent)
  {
    TwoChars(text, i, "/-");
    TwoChars(text, i, "--");
    if StartsWith(text, "--", i) {
      assert LineEnd(text, i) == LineEnd(text, i + 1) == LineEnd(text, i + 2);
    }
  }

  lemma {:induction false} TokenTraced(u: Unicode, text: string, i: nat, inIdent: bool, depth: nat) returns (mask: Mask)
    requires i < |text| && depth <= MAX_DEPTH && TokenAt(u, text, i, inIdent, depth).Ok?
    requires TokenAt(u, text, i, inIdent, depth).value.Some?
    ensures Traced(u, text, i, TokenAt(u, text, i, inIdent, depth).value.value.code, mask, false, false)
    ensures BeginsBlank(mask) && EndsBlank(mask)
    decreases MAX_DEPTH - depth, 2, 0
  {
    TokenIsLong(u, text, i, inIdent, depth);
    TokenLength(u, text, i, inIdent, depth);
    if IsInterpolated(text, i, inIdent) {
      var rest := InterpolatedTraced(u, text, i + 1, depth);
      OneBlank(u, text, i, false, true);
      TracedAppend(u, text, i, " ", Blanks(1), false, true,
                   InterpolatedFrom(u, text, i + 1, depth).value.code, rest, true, false);
      mask := Blanks(1) + rest;
    } else {
      var end := TokenAt(u, text, i, inIdent, depth).value.value.end;
      BlankTraced(u, text, i, end, false, false);
      mask := Blanks(end - i);
    }
  }

  /** The code without a final `#exit`. */
  function Body(code: string, exited: bool): string {
    if exited && |code| >= 5 then code[..|code| - 5] else code
  }

  /** What is known of lexed code. */
  predicate CodeTrace(
    u: Unicode, text: string, i: nat, stop: bool, open: bool, code: string, exited: bool, mask: Mask) {
    && Traced(u, text, i, Body(code, exited), mask, false, false) && Begins(text, i, mask, open)
    && (if exited then
          && !stop && |code| >= 5 && code[|code| - 5..] == "#exit" && ExitAt(u, text, i + |code| - 5)
          && !LeftOpen(u, Body(code, exited), mask, open)
        else !stop ==> i + |code| == |text|)
  }

  lemma AfterToken(u: Unicode, text: string, i: nat, stop: bool, depth: nat, open: bool, braces: int)
    requires depth <= MAX_DEPTH && i < |text| && CodeFrom(u, text, i, stop, depth, open, braces).Ok?
    requires TokenAt(u, text, i, open, depth).Ok? && TokenAt(u, text, i, open, depth).value.Some?
    ensures var t := TokenAt(u, text, i, open, depth).value.value;
      var rest := CodeFrom(u, text, t.end, stop, depth, false, braces);
      rest.Ok? && CodeFrom(u, text, i, stop, depth, open, braces).value.code == t.code + rest.value.code
  {
  }

  predicate Stops(u: Unicode, text: string, i: nat, stop: bool, open: bool, braces: int)
    requires i < |text|
  {
    (text[i] == '#' && !open && ExitAt(u, text, i)) || (stop && text[i] == '}' && braces == 0)
  }

  lemma AfterCode(u: Unicode, text: string, i: nat, stop: bool, depth: nat, open: bool, braces: int)
    requires depth <= MAX_DEPTH && i < |text| && CodeFrom(u, text, i, stop, depth, open, braces).Ok?
    requires TokenAt(u, text, i, open, depth) == Ok(None) && !Stops(u, text, i, stop, open, braces)
    ensures CodeHere(u, text, i, open)
    ensures var ident, nest := IdentAfter(u, open, text[i]), BracesAfter(stop, braces, text[i]);
      var rest := CodeFrom(u, text, i + 1, stop, depth, ident, nest);
      rest.Ok? && CodeFrom(u, text, i, stop, depth, open, braces).value.code == [text[i]] + rest.value.code
  {
    TokenKeeps(u, text, i, open, depth);
    if ExitAt(u, text, i) {
      assert text[i + 0] == "#exit"[0];
    }
  }

  lemma StopCode(u: Unicode, text: string, i: nat, stop: bool, depth: nat, open: bool, braces: int)
    requires depth <= MAX_DEPTH && i <= |text| && CodeFrom(u, text, i, stop, depth, open, braces).Ok?
    requires i < |text| ==> TokenAt(u, text, i, open, depth) == Ok(None) && Stops(u, text, i, stop, open, braces)
    ensures CodeFrom(u, text, i, stop, depth, open, braces).value.code == if !stop && i < |text| then "#exit" else ""
    ensures !stop && i < |text| ==> !open && ExitAt(u, text, i)
  {
  }

  lemma NothingTraced(u: Unicode, text: string, i: nat, stop: bool, open: bool, code: string, exited: bool)
    requires i <= |text| && (if exited then !stop && !open && ExitAt(u, text, i) else !stop ==> i == |text|)
    requires if exited then code == "#exit" else code == ""
    ensures CodeTrace(u, text, i, stop, open, code, exited, [])
  {
    assert exited ==> |code| == 5 && code[..0] == "" && code[0..] == code;
  }

  lemma {:induction false} CodeTraced(u: Unicode, text: string, i: nat, stop: bool, depth: nat, open: bool, braces: int)
    returns (exited: bool, mask: Mask)
    requires depth <= MAX_DEPTH && i <= |text| && CodeFrom(u, text, i, stop, depth, open, braces).Ok?
    ensures CodeTrace(u, text, i, stop, open, CodeFrom(u, text, i, stop, depth, open, braces).value.code, exited, mask)
    decreases MAX_DEPTH - depth, 3, |text| - i
  {
    if i == |text| || (TokenAt(u, text, i, open, depth) == Ok(None) && Stops(u, text, i, stop, open, braces)) {
      StopCode(u, text, i, stop, depth, open, braces);
      exited, mask := !stop && i < |text|, [];
      NothingTraced(u, text, i, stop, open, CodeFrom(u, text, i, stop, depth, open, braces).value.code, exited);
    } else {
      var piece, first, to, ident, nest := FirstTraced(u, text, i, stop, depth, open, braces);
      var rest := CodeFrom(u, text, to, stop, depth, ident, nest).value.code;
      exited, mask := CodeTraced(u, text, to, stop, depth, ident, nest);
      PieceThenTrace(u, text, i, stop, open, piece, first, rest, exited, mask);
      mask := first + mask;
    }
  }

  /** The first piece of lexed code, and the state behind it. */
  lemma {:induction false} FirstTraced(
    u: Unicode, text: string, i: nat, stop: bool, depth: nat, open: bool, braces: int)
    returns (piece: string, first: Mask, to: nat, ident: bool, nest: int)
    requires depth <= MAX_DEPTH && i < |text| && CodeFrom(u, text, i, stop, depth, open, braces).Ok?
    requires !(TokenAt(u, text, i, open, depth) == Ok(None) && Stops(u, text, i, stop, open, braces))
    ensures piece != "" && to == i + |piece| <= |text|
    ensures Traced(u, text, i, piece, first, false, false) && Begins(text, i, first, open)
    ensures LeftOpen(u, piece, first, false) == ident
    ensures CodeFrom(u, text, to, stop, depth, ident, nest).Ok?
    ensures CodeFrom(u, text, i, stop, depth, open, braces).value.code ==
            piece + CodeFrom(u, text, to, stop, depth, ident, nest).value.code
    decreases MAX_DEPTH - depth, 2, 1
  {
    if TokenAt(u, text, i, open, depth) != Ok(None) {
      AfterToken(u, text, i, stop, depth, open, braces);
      piece, to := TokenAt(u, text, i, open, depth).value.value.code, TokenAt(u, text, i, open, depth).value.value.end;
      ident, nest := false, braces;
      first := TokenTraced(u, text, i, open, depth);
      TokenIsLong(u, text, i, open, depth);
      TokenLength(u, text, i, open, depth);
    } else {
      AfterCode(u, text, i, stop, depth, open, braces);
      piece, first, to := [text[i]], [Some(open)], i + 1;
      ident, nest := IdentAfter(u, open, text[i]), BracesAfter(stop, braces, text[i]);
      assert MarkOk(u, text, i, piece, first, 0);
    }
  }

  lemma LeftOpenAppend(u: Unicode, a: string, ma: Mask, b: string, mb: Mask, open: bool)
    requires |ma| == |a| > 0 && |mb| == |b|
    ensures LeftOpen(u, a + b, ma + mb, open) == LeftOpen(u, b, mb, LeftOpen(u, a, ma, open))
  {
  }

  lemma BodyAppend(piece: string, code: string, exited: bool)
    requires exited ==> |code| >= 5
    ensures Body(piece + code, exited) == piece + Body(code, exited)
    ensures exited ==> (piece + code)[|piece + code| - 5..] == code[|code| - 5..]
  {
  }

  lemma PieceThenTrace(
    u: Unicode, text: string, i: nat, stop: bool, open: bool, piece: string, first: Mask,
    code: string, exited: bool, mask: Mask)
    requires piece != "" && Traced(u, text, i, piece, first, false, false) && Begins(text, i, first, open)
    requires CodeTrace(u, text, i + |piece|, stop, LeftOpen(u, piece, first, false), code, exited, mask)
    ensures CodeTrace(u, text, i, stop, open, piece + code, exited, first + mask)
  {
    BodyAppend(piece, code, exited);
    LeftOpenAppend(u, piece, first, Body(code, exited), mask, open);
    TracedAppend(u, text, i, piece, first, false, false, Body(code, exited), mask, false, false);
  }

  // ---------------------------------------------------------------- the second pass

  /** What is true of Python's tables: blanks, `#` and the characters that break an identifier are no letters, and those
      of `exit` are. */
  predicate Sane(u: Unicode) {
    && !u.alnum(' ') && !u.alnum('\n') && !u.alpha(' ') && !u.alpha('\n') && !u.alpha('#')
    && u.alpha('e') && u.alnum('x') && u.alnum('i') && u.alnum('t')
    && !u.word('/') && !u.word('-') && !u.word('"') && !u.word('}')
  }

  /** Whether an identifier is open in front of character `k` of plain code. */
  predicate IdentAt(u: Unicode, s: string, k: nat)
    requires k <= |s|
  {
    k > 0 && IdentAfter(u, IdentAt(u, s, k - 1), s[k - 1])
  }

  /** No character literal and no `#exit` but a last one begins here. */
  predicate Settled(u: Unicode, s: string, k: nat)
    requires k < |s|
  {
    !IdentAt(u, s, k) ==> CharLiteralEnd(s, k).None? && (ExitAt(u, s, k) ==> k + 5 == |s|)
  }

  lemma NoTokenInClean(u: Unicode, s: string, i: nat)
    requires i < |s| && Clean(s) && Settled(u, s, i)
    ensures TokenAt(u, s, i, IdentAt(u, s, i), 0) == Ok(None)
  {
    TwoChars(s, i, "/-");
    TwoChars(s, i, "--");
    assert s[i] != '"';
  }

  lemma {:induction false} SettledIsKept(u: Unicode, s: string, i: nat)
    requires i <= |s| && Clean(s) && forall k: nat :: k < |s| ==> Settled(u, s, k)
    ensures CodeFrom(u, s, i, false, 0, IdentAt(u, s, i), 0).Ok?
    ensures CodeFrom(u, s, i, false, 0, IdentAt(u, s, i), 0).value.code == s[i..]
    decreases |s| - i
  {
    if i < |s| {
      assert Settled(u, s, i);
      NoTokenInClean(u, s, i);
      if s[i] == '#' && !IdentAt(u, s, i) && ExitAt(u, s, i) {
        assert s[i..] == "#exit";
      } else {
        SettledIsKept(u, s, i + 1);
        assert s[i..] == [s[i]] + s[i + 1..];
      }
    }
  }

  lemma {:induction false} IdentMatches(u: Unicode, text: string, out: string, body: string, mask: Mask, k: nat)
    requires Sane(u) && Traced(u, text, 0, body, mask, false, false) && Begins(text, 0, mask, false)
    requires |body| <= |out| && out[..|body|] == body && k <= |mask|
    ensures IdentAt(u, out, k) == (k > 0 && OpenAfter(u, mask[k - 1], out[k - 1]))
    decreases k
  {
    if k > 0 {
      IdentMatches(u, text, out, body, mask, k - 1);
      assert out[k - 1] == body[k - 1];
      assert MarkOk(u, text, 0, body, mask, k - 1);
      if k > 1 {
        assert Follows(u, text, 0, body, mask, k - 1);
      }
    }
  }

  /** Where the output shows something that is no blank, it is a character of the text. */
  lemma ShownIsCode(u: Unicode, text: string, body: string, mask: Mask, k: nat)
    requires Traced(u, text, 0, body, mask, false, false) && k < |body| && body[k] != ' ' && body[k] != '\n'
    ensures mask[k].Some? && body[k] == text[k]
  {
    assert MarkOk(u, text, 0, body, mask, k);
  }

  /** A single character between two that are no blanks is a character of the text. */
  lemma BetweenIsCode(u: Unicode, text: string, body: string, mask: Mask, k: nat)
    requires Traced(u, text, 0, body, mask, false, false) && 0 < k < |body| - 1
    requires body[k - 1] != ' ' && body[k - 1] != '\n' && body[k + 1] != ' ' && body[k + 1] != '\n'
    ensures mask[k].Some? && body[k] == text[k]
  {
    ShownIsCode(u, text, body, mask, k - 1);
    ShownIsCode(u, text, body, mask, k + 1);
    assert Paired(mask, false, false, k) && MarkOk(u, text, 0, body, mask, k);
  }

  /** Blanking makes no character literal. */
  lemma NoNewLiteral(u: Unicode, text: string, body: string, mask: Mask, k: nat)
    requires Traced(u, text, 0, body, mask, false, false) && CharLiteralEnd(body, k).Some?
    ensures CharLiteralEnd(text, k).Some?
  {
    var end := CharLiteralEnd(body, k).value;
    ShownIsCode(u, text, body, mask, k);
    ShownIsCode(u, text, body, mask, end - 1);
    if end == k + 3 {
      BetweenIsCode(u, text, body, mask, k + 1);
    } else {
      ShownIsCode(u, text, body, mask, k + 1);
      if end == k + 4 {
        BetweenIsCode(u, text, body, mask, k + 2);
      } else {
        forall m: nat | k + 2 <= m < end - 1 ensures body[m] == text[m] {
          ShownIsCode(u, text, body, mask, m);
        }
      }
    }
  }

  lemma LiteralInFront(body: string, tail: string, k: nat)
    requires '\'' !in tail && k < |body + tail| && CharLiteralEnd(body + tail, k).Some?
    ensures CharLiteralEnd(body, k).Some?
  {
    var out := body + tail;
    var end := CharLiteralEnd(out, k).value;
    assert out[end - 1] == '\'' && end <= |body|;
    assert forall m :: k <= m < end ==> out[m] == body[m];
  }

  lemma FiveChars(s: string, k: nat)
    ensures StartsWith(s, "#exit", k) <==>
      k + 5 <= |s| && s[k] == '#' && s[k + 1] == 'e' && s[k + 2] == 'x' && s[k + 3] == 'i' && s[k + 4] == 't'
  {
    var e := "#exit";
    assert e[0] == '#' && e[1] == 'e' && e[2] == 'x' && e[3] == 'i' && e[4] == 't';
    if StartsWith(s, e, k) {
      assert s[k + 0] == e[0] && s[k + 1] == e[1] && s[k + 2] == e[2] && s[k + 3] == e[3] && s[k + 4] == e[4];
    }
  }

  /** Blanking makes no `#exit`: behind one that was none, an identifier goes on in the text and in the output. */
  lemma NoNewExit(u: Unicode, text: string, body: string, mask: Mask, k: nat)
    requires Sane(u) && Traced(u, text, 0, body, mask, false, false) && k + 5 < |body|
    requires mask[k] == Some(false) && ExitAt(u, body, k)
    ensures ExitAt(u, text, k)
  {
    FiveChars(body, k);
    FiveChars(text, k);
    forall m: nat | k <= m < k + 5 ensures mask[m].Some? && body[m] == text[m] {
      ShownIsCode(u, text, body, mask, m);
    }
    assert Follows(u, text, 0, body, mask, k + 1) && Follows(u, text, 0, body, mask, k + 2);
    assert Follows(u, text, 0, body, mask, k + 3) && Follows(u, text, 0, body, mask, k + 4);
    assert Follows(u, text, 0, body, mask, k + 5) && MarkOk(u, text, 0, body, mask, k + 5);
    assert OpenAfter(u, mask[k + 4], body[k + 4]);
  }

  lemma BodySettles(u: Unicode, text: string, out: string, exited: bool, mask: Mask, k: nat)
    requires Sane(u) && CodeTrace(u, text, 0, false, false, out, exited, mask) && k < |Body(out, exited)|
    ensures Settled(u, out, k)
  {
    var body := Body(out, exited);
    var tail := out[|body|..];
    assert out == body + tail && out[..|body|] == body && (tail == "" || tail == "#exit");
    IdentMatches(u, text, out, body, mask, k);
    if !IdentAt(u, out, k) {
      assert MarkOk(u, text, 0, body, mask, k);
      if k > 0 {
        assert Follows(u, text, 0, body, mask, k);
      }
      if CharLiteralEnd(out, k).Some? {
        LiteralInFront(body, tail, k);
        NoNewLiteral(u, text, body, mask, k);
        ShownIsCode(u, text, body, mask, k);
        assert false;
      }
      NoExitInBody(u, text, out, exited, mask, k);
    }
  }

  lemma NoExitInBody(u: Unicode, text: string, out: string, exited: bool, mask: Mask, k: nat)
    requires Sane(u) && CodeTrace(u, text, 0, false, false, out, exited, mask) && k < |Body(out, exited)|
    requires mask[k] != Some(true)
    ensures !ExitAt(u, out, k)
  {
    var body := Body(out, exited);
    assert forall m :: 0 <= m < |body| ==> out[m] == body[m];
    FiveChars(out, k);
    FiveChars(text, k);
    assert MarkOk(u, text, 0, body, mask, k);
    if exited {
      FiveChars(text, |body|);
      assert out[|body|..][0] == '#';
    }
    if ExitAt(u, out, k) {
      ShownIsCode(u, text, body, mask, k);
      forall m: nat | k <= m < k + 5 ensures m < |body| && body[m] == text[m] {
        ShownIsCode(u, text, body, mask, m);
      }
      FiveChars(body, k);
      if k + 5 < |body| {
        NoNewExit(u, text, body, mask, k);
      }
      assert false;
    }
  }

  /** Lexing what was lexed changes nothing. */
  lemma SecondPassChangesNothing(u: Unicode, text: string)
    requires Sane(u) && LexedLean(u, text).Ok?
    ensures LexedLean(u, LexedLean(u, text).value) == LexedLean(u, text)
  {
    var out := LexedLean(u, text).value;
    var exited, mask := CodeTraced(u, text, 0, false, 0, false, 0);
    LexLeanLaws(u, text);
    forall k: nat | k < |out| ensures Settled(u, out, k) {
      if k < |Body(out, exited)| {
        BodySettles(u, text, out, exited, mask, k);
      } else {
        TailSettles(u, out, |Body(out, exited)|, k);
      }
    }
    SettledIsKept(u, out, 0);
    assert out[0..] == out;
  }

  lemma TailSettles(u: Unicode, out: string, n: nat, k: nat)
    requires n <= k < |out| && out[n..] == "#exit"
    ensures Settled(u, out, k)
  {
    assert out[k] == out[n..][k - n];
    FiveChars(out, k);
  }

  /** Text without comments, literals and `#exit` is accepted as it is. */
  lemma PlainLeanIsKept(u: Unicode, text: string)
    requires forall k :: 0 <= k < |text| ==> !Marked(text, k) && !ExitAt(u, text, k)
    ensures LexedLean(u, text) == Ok(text)
  {
    forall k | 0 <= k < |text| ensures text[k] != '"' && Settled(u, text, k) {
      assert !Marked(text, k);
    }
    forall k | 0 <= k < |text| - 1 && (text[k] == '/' || text[k] == '-') ensures text[k + 1] != '-' {
      TwoChars(text, k, "/-");
      TwoChars(text, k, "--");
      assert !Marked(text, k);
    }
    SettledIsKept(u, text, 0);
    assert text[0..] == text;
  }
}
