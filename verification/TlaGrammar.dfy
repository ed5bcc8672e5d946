/** TLA+ text as a row of pieces, and what the lexer makes of each: the text that is accepted, and what it becomes,
    without the lexer. */
module TlaGrammar {
  import opened Bytes
  import opened Blanking
  import opened Quoting
  import opened TlaLexer

  datatype Piece = Code(c: char) | Block(s: string) | Rest(s: string) | Quoted(s: string)

  function PieceText(p: Piece): string {
    if p.Code? then [p.c] else p.s
  }

  function PieceOut(p: Piece): string {
    if p.Code? then [p.c] else Blank(p.s)
  }

  /** A comment with those nested in it, a comment to the end of its line, a string on one line, or a character at
      which none of them begins. */
  ghost predicate PieceOk(p: Piece, behind: string) {
    match p
    case Code(c) => !OpenerAt([c] + behind, 0)
    case Block(s) => IsComment(s, OPEN, CLOSE)
    case Rest(s) => StartsWith(s, LINE, 0) && '\n' !in s && (behind == "" || behind[0] == '\n')
    case Quoted(s) => IsString(s, false)
  }

  function TextOf(ps: seq<Piece>): string {
    if ps == [] then "" else PieceText(ps[0]) + TextOf(ps[1..])
  }

  function OutOf(ps: seq<Piece>): string {
    if ps == [] then "" else PieceOut(ps[0]) + OutOf(ps[1..])
  }

  ghost predicate ProperPieces(ps: seq<Piece>) {
    ps != [] ==> PieceOk(ps[0], TextOf(ps[1..])) && ProperPieces(ps[1..])
  }

  // ---------------------------------------------------------------- one token

  lemma TlaString(text: string, i: nat)
    requires i < |text| && text[i] == '"'
    ensures forall j :: StringEnd(text, i + 1) == Some(j) <==> i <= j <= |text| && IsString(text[i..j], false)
  {
    var end := (j: nat) => StringEnd(text, j);
    forall j ensures StringStep(end, text, j, false) {
    }
    StringExactly(end, text, i, false);
  }

  lemma CommentOpens(s: string, opener: string, closer: string)
    requires IsComment(s, opener, closer)
    ensures StartsWith(s, opener, 0)
  {
  }

  lemma StringOpens(s: string, multiline: bool)
    requires IsString(s, multiline)
    ensures s != "" && s[0] == '"'
  {
  }

  /** The same pattern begins in what stands at `i`. */
  lemma StartsHere(text: string, i: nat, s: string, behind: string, pattern: string)
    requires i <= |text| && text[i..] == s + behind && StartsWith(s, pattern, 0)
    ensures i + |s| <= |text| && text[i..i + |s|] == s && text[i + |s|..] == behind && StartsWith(text, pattern, i)
  {
    assert |text[i..]| == |s| + |behind|;
    assert text[i..][..|s|] == s && text[i..][|s|..] == behind;
    BeginsAlike(text, i, s, pattern);
  }

  lemma BlockEnds(text: string, i: nat, s: string, behind: string)
    requires i <= |text| && text[i..] == s + behind && IsComment(s, OPEN, CLOSE)
    ensures i < i + |s| <= |text| && text[i..i + |s|] == s && text[i + |s|..] == behind
    ensures OpenerAt(text, i) && TokenEnd(text, i) == Ok(i + |s|)
  {
    CommentOpens(s, OPEN, CLOSE);
    StartsHere(text, i, s, behind, OPEN);
    CommentExactly(text, i, OPEN, CLOSE);
  }

  lemma RestEnds(text: string, i: nat, s: string, behind: string)
    requires i <= |text| && text[i..] == s + behind && StartsWith(s, LINE, 0)
    requires '\n' !in s && (behind == "" || behind[0] == '\n')
    ensures i < i + |s| <= |text| && text[i..i + |s|] == s && text[i + |s|..] == behind
    ensures OpenerAt(text, i) && TokenEnd(text, i) == Ok(i + |s|)
  {
    StartsHere(text, i, s, behind, LINE);
    TwoChars(text, i, OPEN);
    TwoChars(text, i, LINE);
    var j := LineEnd(text, i);
    forall k | i <= k < i + |s| ensures text[k] != '\n' {
      assert text[i..i + |s|][k - i] == s[k - i];
    }
    assert behind != "" ==> text[i + |s|..][0] == behind[0];
  }

  lemma QuotedEnds(text: string, i: nat, s: string, behind: string)
    requires i <= |text| && text[i..] == s + behind && IsString(s, false)
    ensures i < i + |s| <= |text| && text[i..i + |s|] == s && text[i + |s|..] == behind
    ensures OpenerAt(text, i) && TokenEnd(text, i) == Ok(i + |s|)
  {
    StringOpens(s, false);
    StartsHere(text, i, s, behind, "");
    assert text[i] == text[i..i + |s|][0];
    TwoChars(text, i, OPEN);
    TwoChars(text, i, LINE);
    TlaString(text, i);
  }

  /** Where a piece that is no code begins, the lexer goes on behind it. */
  lemma PieceEnds(text: string, i: nat, p: Piece, behind: string)
    requires !p.Code? && PieceOk(p, behind) && i <= |text| && text[i..] == p.s + behind
    ensures i < i + |p.s| <= |text| && text[i..i + |p.s|] == p.s && text[i + |p.s|..] == behind
    ensures OpenerAt(text, i) && TokenEnd(text, i) == Ok(i + |p.s|)
  {
    match p
    case Block(s) => BlockEnds(text, i, s, behind);
    case Rest(s) => RestEnds(text, i, s, behind);
    case Quoted(s) => QuotedEnds(text, i, s, behind);
  }

  /** What the lexer steps over is such a piece. */
  lemma TokenIsPiece(text: string, i: nat) returns (p: Piece)
    requires i < |text| && OpenerAt(text, i) && TokenEnd(text, i).Ok?
    ensures var j := TokenEnd(text, i).value; !p.Code? && p.s == text[i..j] && PieceOk(p, text[j..])
  {
    var j := TokenEnd(text, i).value;
    if StartsWith(text, OPEN, i) {
      p := Block(text[i..j]);
      CommentExactly(text, i, OPEN, CLOSE);
    } else if StartsWith(text, LINE, i) {
      p := Rest(text[i..j]);
      TwoChars(text, i, LINE);
      LineHolds(text, i, j);
    } else {
      p := Quoted(text[i..j]);
      TlaString(text, i);
    }
  }

  lemma LineHolds(text: string, i: nat, j: nat)
    requires i <= |text| && StartsWith(text, LINE, i) && j == LineEnd(text, i)
    ensures StartsWith(text[i..j], LINE, 0) && '\n' !in text[i..j] && (text[j..] == "" || text[j..][0] == '\n')
  {
    TwoChars(text, i, LINE);
    assert text[i] != '\n' && text[i + 1] != '\n' && j >= i + 2;
    TwoChars(text[i..j], 0, LINE);
  }

  // ---------------------------------------------------------------- the whole text

  lemma FirstOfPieces(p: Piece, rest: seq<Piece>)
    ensures TextOf([p] + rest) == PieceText(p) + TextOf(rest) && OutOf([p] + rest) == PieceOut(p) + OutOf(rest)
    ensures ProperPieces([p] + rest) <==> PieceOk(p, TextOf(rest)) && ProperPieces(rest)
  {
    assert ([p] + rest)[1..] == rest;
  }

  lemma CodeHere(text: string, i: nat)
    requires i < |text|
    ensures text[i..] == [text[i]] + text[i + 1..]
    ensures OpenerAt(text, i) <==> OpenerAt([text[i]] + text[i + 1..], 0)
  {
    assert text[i..] == [text[i]] + text[i + 1..];
    assert text == text[..i] + text[i..];
    OpenerOfSuffix(text[..i], text[i..], 0);
  }

  /** The text from `i` on is a row of these pieces. */
  ghost predicate Row(text: string, i: nat, ps: seq<Piece>) {
    i <= |text| && ProperPieces(ps) && text[i..] == TextOf(ps)
  }

  /** One piece of text, one step of the lexer. */
  lemma PieceStep(text: string, i: nat, j: nat, p: Piece, behind: string)
    requires i <= |text| && text[i..] == PieceText(p) + behind && PieceOk(p, behind) && j == i + |PieceText(p)|
    ensures i < j <= |text| && text[j..] == behind
    ensures BlankedFrom(text, i) == TlaLexer.Prepend(PieceOut(p), BlankedFrom(text, j))
  {
    if p.Code? {
      CodeStep(text, i, p.c, behind);
    } else {
      PassesToken(text, i, j, p, behind);
    }
  }

  lemma CodeStep(text: string, i: nat, c: char, behind: string)
    requires i <= |text| && text[i..] == [c] + behind && !OpenerAt([c] + behind, 0)
    ensures i < |text| && text[i + 1..] == behind
    ensures BlankedFrom(text, i) == TlaLexer.Prepend([c], BlankedFrom(text, i + 1))
  {
    CodeFirst(text, i, c, behind);
  }

  lemma PassesToken(text: string, i: nat, j: nat, p: Piece, behind: string)
    requires !p.Code? && PieceOk(p, behind) && i <= |text| && text[i..] == p.s + behind && j == i + |p.s|
    ensures i < j <= |text| && text[j..] == behind
    ensures BlankedFrom(text, i) == TlaLexer.Prepend(Blank(p.s), BlankedFrom(text, j))
  {
    PieceEnds(text, i, p, behind);
    TokenStep(text, i, j);
  }

  lemma TokenStep(text: string, i: nat, j: nat)
    requires i < |text| && OpenerAt(text, i) && TokenEnd(text, i) == Ok(j)
    ensures BlankedFrom(text, i) == TlaLexer.Prepend(Blank(text[i..j]), BlankedFrom(text, j))
  {
  }

  lemma {:induction false} RowIsBlanked(text: string, i: nat, ps: seq<Piece>)
    requires Row(text, i, ps)
    ensures BlankedFrom(text, i) == Ok(OutOf(ps))
    decreases |ps|
  {
    if ps == [] {
      assert |text[i..]| == 0;
    } else {
      var p, rest := ps[0], ps[1..];
      var j := i + |PieceText(p)|;
      PieceStep(text, i, j, p, TextOf(rest));
      RowIsBlanked(text, j, rest);
    }
  }

  lemma CodeFirst(text: string, i: nat, c: char, behind: string)
    requires i <= |text| && text[i..] == [c] + behind && !OpenerAt([c] + behind, 0)
    ensures i < |text| && text[i] == c && text[i + 1..] == behind && !OpenerAt(text, i)
  {
    assert |text[i..]| == 1 + |behind| && text[i] == text[i..][0] && text[i + 1..] == text[i..][1..];
    CodeHere(text, i);
  }

  lemma {:induction false} BlankedIsRow(text: string, i: nat) returns (ps: seq<Piece>)
    requires i <= |text| && BlankedFrom(text, i).Ok?
    ensures Row(text, i, ps)
    decreases |text| - i, 1
  {
    if i == |text| {
      ps := [];
    } else if OpenerAt(text, i) {
      ps := TokenThenRow(text, i);
    } else {
      var rest := BlankedIsRow(text, i + 1);
      ps := [Code(text[i])] + rest;
      CodeThenRow(text, i, rest);
    }
  }

  lemma CodeThenRow(text: string, i: nat, rest: seq<Piece>)
    requires i < |text| && !OpenerAt(text, i) && Row(text, i + 1, rest)
    ensures Row(text, i, [Code(text[i])] + rest)
  {
    CodeHere(text, i);
    RowGrows(text, i, i + 1, Code(text[i]), rest);
  }

  lemma {:induction false} TokenThenRow(text: string, i: nat) returns (ps: seq<Piece>)
    requires i < |text| && OpenerAt(text, i) && BlankedFrom(text, i).Ok?
    ensures Row(text, i, ps)
    decreases |text| - i, 0
  {
    var p := TokenIsPiece(text, i);
    var j := TokenEnd(text, i).value;
    var rest := BlankedIsRow(text, j);
    ps := [p] + rest;
    RowGrows(text, i, j, p, rest);
  }

  lemma RowGrows(text: string, i: nat, j: nat, p: Piece, rest: seq<Piece>)
    requires i <= j && Row(text, j, rest) && text[i..j] == PieceText(p) && PieceOk(p, text[j..])
    ensures Row(text, i, [p] + rest)
  {
    FirstOfPieces(p, rest);
    SplitAt(text, i, j);
  }

  lemma SplitAt(text: string, i: nat, j: nat)
    requires i <= j <= |text|
    ensures text[i..] == text[i..j] + text[j..]
  {
  }

  ghost predicate Becomes(text: string, out: string) {
    exists ps :: ProperPieces(ps) && text == TextOf(ps) && out == OutOf(ps)
  }

  /** A text is accepted exactly when it is a row of pieces, and becomes the row of what each piece becomes. */
  lemma BlankTlaExactly(text: string)
    ensures forall out :: BlankedFrom(text, 0) == Ok(out) <==> Becomes(text, out)
  {
    assert text[0..] == text;
    if BlankedFrom(text, 0).Ok? {
      var ps := BlankedIsRow(text, 0);
      RowIsBlanked(text, 0, ps);
    }
    forall out | Becomes(text, out) ensures BlankedFrom(text, 0) == Ok(out) {
      var ps :| ProperPieces(ps) && text == TextOf(ps) && out == OutOf(ps);
      RowIsBlanked(text, 0, ps);
    }
  }
}
