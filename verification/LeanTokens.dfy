/** The literals of Lean as text, and that the lexer steps over exactly them. */
module LeanTokens {
  import opened Bytes
  import opened Blanking
  import opened Quoting
  import opened LeanLexer

  // ---------------------------------------------------------------- strings

  /** A plain string may hold line ends. */
  lemma PlainStringExactly(text: string, i: nat)
    requires i < |text| && text[i] == '"'
    ensures forall j :: StringEnd(text, i + 1) == Some(j) <==> i <= j <= |text| && IsString(text[i..j], true)
  {
    var end := (j: nat) => StringEnd(text, j);
    forall j ensures StringStep(end, text, j, true) {
    }
    StringExactly(end, text, i, true);
  }

  // ---------------------------------------------------------------- character literals

  datatype CharLiteral =
    | PlainChar(c: char)
    | EscapedChar(c: char)
    | HexByte(a: char, b: char)
    | HexCode(a: char, b: char, c: char, d: char)

  predicate CharOk(l: CharLiteral) {
    match l
    case PlainChar(c) => c != '\'' && c != '\\' && c != '\n'
    case EscapedChar(c) => c != '\n'
    case HexByte(a, b) => IsHex(a) && IsHex(b)
    case HexCode(a, b, c, d) => IsHex(a) && IsHex(b) && IsHex(c) && IsHex(d)
  }

  function CharText(l: CharLiteral): string {
    match l
    case PlainChar(c) => ['\'', c, '\'']
    case EscapedChar(c) => ['\'', '\\', c, '\'']
    case HexByte(a, b) => ['\'', '\\', 'x', a, b, '\'']
    case HexCode(a, b, c, d) => ['\'', '\\', 'u', a, b, c, d, '\'']
  }

  ghost predicate IsCharLiteral(s: string) {
    exists l :: CharOk(l) && s == CharText(l)
  }

  lemma CharLiteralStands(text: string, i: nat) returns (l: CharLiteral)
    requires CharLiteralEnd(text, i).Some?
    ensures CharOk(l) && text[i..CharLiteralEnd(text, i).value] == CharText(l)
  {
    var j := CharLiteralEnd(text, i).value;
    l := if j == i + 3 then PlainChar(text[i + 1])
         else if j == i + 4 then EscapedChar(text[i + 2])
         else if j == i + 6 then HexByte(text[i + 3], text[i + 4])
         else HexCode(text[i + 3], text[i + 4], text[i + 5], text[i + 6]);
  }

  lemma CharLiteralEnds(text: string, i: nat, j: nat, l: CharLiteral)
    requires i <= j <= |text| && CharOk(l) && text[i..j] == CharText(l)
    ensures CharLiteralEnd(text, i) == Some(j)
  {
    var s := CharText(l);
    assert |text[i..j]| == j - i;
    assert text[i] == s[0] && text[i + 1] == s[1] && text[i + 2] == s[2];
    if !l.PlainChar? {
      assert text[i + 3] == s[3];
    }
    if l.HexByte? || l.HexCode? {
      assert text[i + 4] == s[4] && text[i + 5] == s[5];
    }
    if l.HexCode? {
      assert text[i + 6] == s[6] && text[i + 7] == s[7];
    }
  }

  /** A character literal ends at `j` exactly when one stands from `i` to `j`. */
  lemma CharLiteralExactly(text: string, i: nat)
    ensures forall j :: CharLiteralEnd(text, i) == Some(j) <==> i <= j <= |text| && IsCharLiteral(text[i..j])
  {
    if CharLiteralEnd(text, i).Some? {
      var l := CharLiteralStands(text, i);
    }
    forall j | i <= j <= |text| && IsCharLiteral(text[i..j]) ensures CharLiteralEnd(text, i) == Some(j) {
      var l :| CharOk(l) && text[i..j] == CharText(l);
      CharLiteralEnds(text, i, j, l);
    }
  }

  // ---------------------------------------------------------------- raw strings

  function Marks(h: nat): string {
    seq(h, _ => '#')
  }

  function RawOpener(h: nat): string {
    "r" + Marks(h) + QUOTE
  }

  function RawCloser(h: nat): string {
    QUOTE + Marks(h)
  }

  /** Between the opener and a closer with as many marks, text in which no such closer begins earlier. */
  ghost predicate IsRawString(s: string) {
    exists h: nat, body: string :: RawBody(h, body) && s == RawOpener(h) + (body + RawCloser(h))
  }

  predicate RawBody(h: nat, body: string) {
    forall k :: 0 <= k < |body| ==> !StartsWith(body + RawCloser(h), RawCloser(h), k)
  }

  predicate AllMarks(text: string, from: nat, to: nat) {
    from <= to <= |text| && forall k :: from <= k < to ==> text[k] == '#'
  }

  lemma {:induction false} HashesExactly(text: string, j: nat, h: nat)
    requires j <= |text|
    ensures Hashes(text, j) == h <==> AllMarks(text, j, j + h) && (j + h < |text| ==> text[j + h] != '#')
    decreases |text| - j
  {
    if j < |text| && text[j] == '#' && h > 0 {
      HashesExactly(text, j + 1, h - 1);
      assert j + 1 + (h - 1) == j + h;
    }
  }

  /** A raw string begins where its opener stands, with as many marks as are found. */
  lemma OpenerExactly(text: string, i: nat, h: nat)
    ensures At(text, i, RawOpener(h)) <==> RawStringAt(text, i) && Hashes(text, i + 1) == h
  {
    if i < |text| {
      HashesExactly(text, i + 1, h);
      OpenerStands(text, i, h);
    }
  }

  lemma OpenerStands(text: string, i: nat, h: nat)
    requires i < |text|
    ensures At(text, i, RawOpener(h)) <==>
      text[i] == 'r' && i + 1 + h < |text| && AllMarks(text, i + 1, i + 1 + h) && text[i + 1 + h] == '"'
  {
    AtBoth(text, i, "r" + Marks(h), QUOTE);
    AtBoth(text, i, "r", Marks(h));
    QuoteHere(text, i + 1 + h);
    MarksStand(text, i + 1, h);
    assert text[i..i + 1] == [text[i]];
  }

  lemma MarksStand(text: string, j: nat, h: nat)
    ensures At(text, j, Marks(h)) <==> AllMarks(text, j, j + h)
  {
    if At(text, j, Marks(h)) {
      forall k | j <= k < j + h ensures text[k] == '#' {
        assert text[k] == text[j..j + h][k - j];
      }
    }
  }

  lemma {:induction false} FindExactly(text: string, pattern: string, from: nat)
    requires pattern != ""
    ensures forall m: nat :: Find(text, pattern, from) == Some(m) <==> FirstAt(text, pattern, from, m)
    decreases |text| - from
  {
    if !StartsWith(text, pattern, from) && from < |text| {
      FindExactly(text, pattern, from + 1);
      forall m: nat ensures FirstAt(text, pattern, from, m) <==> FirstAt(text, pattern, from + 1, m) {
      }
    }
  }

  /** `m` is the first place from `from` on where the pattern stands. */
  predicate FirstAt(text: string, pattern: string, from: nat, m: nat) {
    from <= m && StartsWith(text, pattern, m) && forall k :: from <= k < m ==> !StartsWith(text, pattern, k)
  }

  lemma StartsInside(text: string, a: nat, s: string, k: nat, pattern: string)
    requires At(text, a, s) && k + |pattern| <= |s|
    ensures StartsWith(text, pattern, a + k) <==> StartsWith(s, pattern, k)
  {
    StartsIsAt(text, a + k, pattern);
    StartsIsAt(s, k, pattern);
    Inside(text, a, a + |s|, k, k + |pattern|);
  }

  /** In what stands at `a`, the closer at the end is the first exactly when none begins in the body. */
  lemma FirstCloser(text: string, a: nat, h: nat, body: string)
    requires At(text, a, body + RawCloser(h))
    ensures RawBody(h, body) <==> FirstAt(text, RawCloser(h), a, a + |body|)
  {
    var s, closer := body + RawCloser(h), RawCloser(h);
    StartsInside(text, a, s, |body|, closer);
    StartsIsAt(s, |body|, closer);
    forall k | 0 <= k < |body| ensures StartsWith(text, closer, a + k) <==> StartsWith(s, closer, k) {
      StartsInside(text, a, s, k, closer);
    }
    if RawBody(h, body) {
      forall k | a <= k < a + |body| ensures !StartsWith(text, closer, k) {
        assert !StartsWith(s, closer, k - a) && a + (k - a) == k;
      }
    }
  }

  lemma RawEndIs(text: string, i: nat, h: nat, a: nat)
    requires RawStringAt(text, i) && h == Hashes(text, i + 1) && a == i + |RawOpener(h)|
    ensures var found := Find(text, RawCloser(h), a);
      RawStringEnd(text, i) == if found.Some? then Some(found.value + (h + 1)) else None
  {
    assert RawCloser(h) == CloserOf(h);
  }

  lemma RawStringStands(text: string, i: nat, j: nat)
    requires RawStringAt(text, i) && RawStringEnd(text, i) == Some(j)
    ensures i <= j <= |text| && IsRawString(text[i..j])
  {
    var h := Hashes(text, i + 1);
    var a := i + |RawOpener(h)|;
    OpenerExactly(text, i, h);
    var m := FirstFound(text, i, h, a, RawCloser(h));
    BodyStands(text, i, a, m, h, RawOpener(h), RawCloser(h));
  }

  lemma FirstFound(text: string, i: nat, h: nat, a: nat, closer: string) returns (m: nat)
    requires RawStringAt(text, i) && h == Hashes(text, i + 1) && a == i + |RawOpener(h)|
    requires closer == RawCloser(h) && RawStringEnd(text, i).Some?
    ensures RawStringEnd(text, i) == Some(m + (h + 1)) && FirstAt(text, closer, a, m)
  {
    RawEndIs(text, i, h, a);
    FindExactly(text, closer, a);
    m := Find(text, closer, a).value;
  }

  lemma BodyStands(text: string, i: nat, a: nat, m: nat, h: nat, opener: string, closer: string)
    requires opener == RawOpener(h) && closer == RawCloser(h) && a == i + |opener|
    requires At(text, i, opener) && FirstAt(text, closer, a, m)
    ensures i <= m + |closer| <= |text| && IsRawString(text[i..m + |closer|])
  {
    var body := text[a..m];
    StartsIsAt(text, m, closer);
    AtBoth(text, a, body, closer);
    FirstCloser(text, a, h, body);
    AtBoth(text, i, opener, body + closer);
    assert |opener + (body + closer)| == m + |closer| - i;
  }

  lemma RawStringEnds(text: string, i: nat, j: nat)
    requires i <= j <= |text| && IsRawString(text[i..j])
    ensures RawStringAt(text, i) && RawStringEnd(text, i) == Some(j)
  {
    var h: nat, body: string :| RawBody(h, body) && text[i..j] == RawOpener(h) + (body + RawCloser(h));
    RawTextEnds(text, i, j, h, body);
  }

  lemma RawTextEnds(text: string, i: nat, j: nat, h: nat, body: string)
    requires RawBody(h, body) && i <= j <= |text| && text[i..j] == RawOpener(h) + (body + RawCloser(h))
    ensures RawStringAt(text, i) && RawStringEnd(text, i) == Some(j)
  {
    var a := i + |RawOpener(h)|;
    BodyEnds(text, i, j, a, h, body, RawOpener(h), RawCloser(h));
    OpenerExactly(text, i, h);
    FoundAt(text, i, h, a, a + |body|, RawCloser(h));
  }

  lemma FoundAt(text: string, i: nat, h: nat, a: nat, m: nat, closer: string)
    requires RawStringAt(text, i) && h == Hashes(text, i + 1) && a == i + |RawOpener(h)|
    requires closer == RawCloser(h) && FirstAt(text, closer, a, m)
    ensures RawStringEnd(text, i) == Some(m + (h + 1))
  {
    RawEndIs(text, i, h, a);
    FindExactly(text, closer, a);
  }

  lemma BodyEnds(text: string, i: nat, j: nat, a: nat, h: nat, body: string, opener: string, closer: string)
    requires opener == RawOpener(h) && closer == RawCloser(h) && a == i + |opener| && RawBody(h, body)
    requires i <= j <= |text| && text[i..j] == opener + (body + closer)
    ensures At(text, i, opener) && j == a + |body| + (h + 1) && FirstAt(text, closer, a, a + |body|)
  {
    assert |text[i..j]| == j - i;
    AtBoth(text, i, opener, body + closer);
    FirstCloser(text, a, h, body);
  }

  /** A raw string ends at `j` exactly when one stands from `i` to `j`. */
  lemma RawStringExactly(text: string, i: nat)
    requires RawStringAt(text, i)
    ensures forall j :: RawStringEnd(text, i) == Some(j) <==> i <= j <= |text| && IsRawString(text[i..j])
  {
    if RawStringEnd(text, i).Some? {
      RawStringStands(text, i, RawStringEnd(text, i).value);
    }
    forall j | i <= j <= |text| && IsRawString(text[i..j]) ensures RawStringEnd(text, i) == Some(j) {
      RawStringEnds(text, i, j);
    }
  }

  // ---------------------------------------------------------------- the token at a position

  datatype Kind = BlockComment | LineComment | RawString | PlainString | CharacterLiteral | NoToken

  /** What begins at `i`, an interpolated string apart. */
  predicate Begins(text: string, i: nat, inIdent: bool, kind: Kind)
    requires i < |text|
  {
    match kind
    case BlockComment => StartsWith(text, "/-", i)
    case LineComment => StartsWith(text, "--", i)
    case RawString => !inIdent && RawStringAt(text, i)
    case PlainString => text[i] == '"'
    case CharacterLiteral => !inIdent && CharLiteralEnd(text, i).Some?
    case NoToken =>
      && !StartsWith(text, "/-", i) && !StartsWith(text, "--", i) && text[i] != '"'
      && (!inIdent ==> !RawStringAt(text, i) && CharLiteralEnd(text, i).None?)
  }

  /** The text of such a token, with what follows it. */
  ghost predicate IsToken(s: string, behind: string, kind: Kind) {
    match kind
    case BlockComment => IsComment(s, "/-", "-/")
    case LineComment => '\n' !in s && (behind == "" || behind[0] == '\n')
    case RawString => IsRawString(s)
    case PlainString => IsString(s, true)
    case CharacterLiteral => IsCharLiteral(s)
    case NoToken => false
  }

  function Missing(kind: Kind): LexError {
    match kind
    case BlockComment => UnterminatedComment
    case RawString => UnterminatedRawString
    case _ => UnterminatedString
  }

  /** Where the token of a kind that begins at `i` ends. */
  function KindEnd(text: string, i: nat, inIdent: bool, kind: Kind): Option<nat>
    requires i < |text| && Begins(text, i, inIdent, kind) && !kind.NoToken?
  {
    match kind
    case BlockComment => CommentEnd(text, i, 0, "/-", "-/")
    case LineComment => Some(LineEnd(text, i))
    case RawString => RawStringEnd(text, i)
    case PlainString => StringEnd(text, i + 1)
    case CharacterLiteral => CharLiteralEnd(text, i)
  }

  /** The kinds exclude one another. */
  lemma OneKind(text: string, i: nat, inIdent: bool, kind: Kind, other: Kind)
    requires i < |text| && Begins(text, i, inIdent, kind) && Begins(text, i, inIdent, other)
    ensures kind == other
  {
    TwoChars(text, i, "/-");
    TwoChars(text, i, "--");
  }

  lemma TokenByKind(u: Unicode, text: string, i: nat, inIdent: bool, depth: nat, kind: Kind)
    requires i < |text| && depth <= MAX_DEPTH && Begins(text, i, inIdent, kind) && !kind.NoToken?
    requires !IsInterpolated(text, i, inIdent)
    ensures TokenAt(u, text, i, inIdent, depth) == Blanked(text, i, KindEnd(text, i, inIdent, kind), Missing(kind))
  {
    TwoChars(text, i, "/-");
    TwoChars(text, i, "--");
  }

  lemma LineExactly(text: string, i: nat)
    requires i <= |text|
    ensures forall j :: LineEnd(text, i) == j <==>
      i <= j <= |text| && '\n' !in text[i..j] && (text[j..] == "" || text[j..][0] == '\n')
  {
    var end := LineEnd(text, i);
    forall j | i <= j <= |text| && '\n' !in text[i..j] && (text[j..] == "" || text[j..][0] == '\n')
      ensures j == end
    {
    }
  }

  lemma KindExactly(text: string, i: nat, inIdent: bool, kind: Kind)
    requires i < |text| && Begins(text, i, inIdent, kind) && !kind.NoToken?
    ensures forall j :: KindEnd(text, i, inIdent, kind) == Some(j) <==>
      i <= j <= |text| && IsToken(text[i..j], text[j..], kind)
  {
    match kind
    case BlockComment => CommentExactly(text, i, "/-", "-/");
    case LineComment => LineExactly(text, i);
    case RawString => RawStringExactly(text, i);
    case PlainString => PlainStringExactly(text, i);
    case CharacterLiteral => CharLiteralExactly(text, i);
  }

  ghost predicate TokenEndsAt(text: string, i: nat, j: nat, kind: Kind) {
    i <= j <= |text| && IsToken(text[i..j], text[j..], kind)
  }

  /** The lexer steps over exactly the token that begins at `i`, blanks it, and refuses it for its kind exactly when
      it has no end. */
  lemma TokenExactly(u: Unicode, text: string, i: nat, inIdent: bool, depth: nat, kind: Kind)
    requires i < |text| && depth <= MAX_DEPTH && Begins(text, i, inIdent, kind) && !IsInterpolated(text, i, inIdent)
    ensures kind.NoToken? ==> TokenAt(u, text, i, inIdent, depth) == Ok(None)
    ensures forall j: nat :: TokenEndsAt(text, i, j, kind) ==>
      TokenAt(u, text, i, inIdent, depth) == Ok(Some(Lexed(Blank(text[i..j]), j)))
    ensures !kind.NoToken? && (forall j: nat :: !TokenEndsAt(text, i, j, kind)) ==>
      TokenAt(u, text, i, inIdent, depth) == Refused(Missing(kind))
  {
    if !kind.NoToken? {
      TokenByKind(u, text, i, inIdent, depth, kind);
      KindExactly(text, i, inIdent, kind);
      var end := KindEnd(text, i, inIdent, kind);
      if end.Some? {
        assert TokenEndsAt(text, i, end.value, kind);
      }
    }
  }
}
