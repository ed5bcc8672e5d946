/** scripts/claim_proof_bundle_checker.py, `_blank` and `_nested_comment_end`: what the lexers of TLA+ and Lean
    share. */
module Blanking {
  import opened Bytes

  datatype LexError =
    | UnterminatedComment | UnterminatedString | UnterminatedRawString
    | UnterminatedBrace | UnterminatedInterpolation | NestsTooDeeply

  function BlankChar(c: char): char {
    if c == '\n' then '\n' else ' '
  }

  function Blank(fragment: string): (r: string)
    ensures |r| == |fragment|
  {
    seq(|fragment|, i requires 0 <= i < |fragment| => BlankChar(fragment[i]))
  }

  predicate StartsWith(text: string, pattern: string, at: nat) {
    at + |pattern| <= |text| && forall k :: 0 <= k < |pattern| ==> text[at + k] == pattern[k]
  }

  lemma TwoChars(s: string, k: nat, pattern: string)
    requires |pattern| == 2
    ensures StartsWith(s, pattern, k) <==> k + 2 <= |s| && s[k] == pattern[0] && s[k + 1] == pattern[1]
  {
    if StartsWith(s, pattern, k) {
      assert s[k + 0] == pattern[0] && s[k + 1] == pattern[1];
    }
  }

  /** The position after the closer that brings the nesting depth back to zero. */
  function CommentEnd(text: string, j: nat, depth: int, opener: string, closer: string): (r: Option<nat>)
    requires opener != "" && closer != ""
    ensures r.Some? ==> j < r.value <= |text|
    decreases |text| - j
  {
    if j >= |text| then None
    else if StartsWith(text, opener, j) then CommentEnd(text, j + |opener|, depth + 1, opener, closer)
    else if StartsWith(text, closer, j) then
      if depth == 1 then Some(j + |closer|) else CommentEnd(text, j + |closer|, depth - 1, opener, closer)
    else CommentEnd(text, j + 1, depth, opener, closer)
  }

  // ---------------------------------------------------------------- comments as text

  /** A comment: characters and further comments, between an opener and a closer. */
  datatype Comment = Comment(parts: seq<Part>)
  datatype Part = Plain(c: char) | Nested(comment: Comment)

  function Text(comment: Comment, opener: string, closer: string): string {
    opener + PartsText(comment.parts, opener, closer) + closer
  }

  function PartText(part: Part, opener: string, closer: string): string {
    match part
    case Plain(c) => [c]
    case Nested(comment) => Text(comment, opener, closer)
  }

  function PartsText(parts: seq<Part>, opener: string, closer: string): string {
    if parts == [] then "" else PartText(parts[0], opener, closer) + PartsText(parts[1..], opener, closer)
  }

  /** No plain character begins an opener or a closer with the text behind it. */
  predicate Proper(parts: seq<Part>, opener: string, closer: string) {
    parts != [] ==>
      && Proper(parts[1..], opener, closer)
      && ProperPart(parts[0], Behind(parts[1..], opener, closer), opener, closer)
  }

  predicate ProperPart(part: Part, behind: string, opener: string, closer: string) {
    match part
    case Plain(c) => Quiet([c] + behind, opener, closer)
    case Nested(comment) => Proper(comment.parts, opener, closer)
  }

  /** The contents of an open comment from here on, and its closer. */
  function Behind(parts: seq<Part>, opener: string, closer: string): string {
    PartsText(parts, opener, closer) + closer
  }

  predicate Quiet(s: string, opener: string, closer: string) {
    !StartsWith(s, opener, 0) && !StartsWith(s, closer, 0)
  }

  ghost predicate IsComment(s: string, opener: string, closer: string) {
    exists comment: Comment :: Proper(comment.parts, opener, closer) && s == Text(comment, opener, closer)
  }

  predicate TwoMarks(opener: string, closer: string) {
    |opener| == 2 && |closer| == 2 && opener != closer
  }

  /** `s` stands in the text at `j`. */
  predicate At(text: string, j: nat, s: string) {
    j + |s| <= |text| && text[j..j + |s|] == s
  }

  lemma StartsIsAt(text: string, j: nat, s: string)
    ensures StartsWith(text, s, j) <==> At(text, j, s)
  {
    if At(text, j, s) {
      forall k | 0 <= k < |s| ensures text[j + k] == s[k] {
        assert text[j..j + |s|][k] == s[k];
      }
    }
  }

  lemma AtBoth(text: string, j: nat, a: string, b: string)
    ensures At(text, j, a + b) <==> At(text, j, a) && At(text, j + |a|, b)
  {
    if j + |a + b| <= |text| {
      var both := text[j..j + |a + b|];
      assert both == text[j..j + |a|] + text[j + |a|..j + |a| + |b|];
      assert (a + b)[..|a|] == a && (a + b)[|a|..] == b;
      assert both[..|a|] == text[j..j + |a|] && both[|a|..] == text[j + |a|..j + |a| + |b|];
    }
  }

  /** What begins at the start of `s` begins where `s` stands. */
  lemma BeginsAlike(text: string, j: nat, s: string, pattern: string)
    requires At(text, j, s) && |pattern| <= |s|
    ensures StartsWith(text, pattern, j) <==> StartsWith(s, pattern, 0)
  {
    forall k | 0 <= k < |pattern| ensures text[j + k] == s[k] {
      assert text[j..j + |s|][k] == s[k];
    }
    if StartsWith(text, pattern, j) {
      forall k | 0 <= k < |pattern| ensures s[0 + k] == pattern[k] {
        assert text[j + k] == pattern[k];
      }
    }
    if StartsWith(s, pattern, 0) {
      forall k | 0 <= k < |pattern| ensures text[j + k] == pattern[k] {
        assert s[0 + k] == pattern[k];
      }
    }
  }

  lemma DifferentMarks(text: string, j: nat, opener: string, closer: string)
    requires TwoMarks(opener, closer)
    ensures !(StartsWith(text, opener, j) && StartsWith(text, closer, j))
  {
    StartsIsAt(text, j, opener);
    StartsIsAt(text, j, closer);
  }

  lemma FirstBehind(part: Part, rest: seq<Part>, opener: string, closer: string)
    ensures Behind([part] + rest, opener, closer) == PartText(part, opener, closer) + Behind(rest, opener, closer)
    ensures Proper([part] + rest, opener, closer) <==>
      Proper(rest, opener, closer) && ProperPart(part, Behind(rest, opener, closer), opener, closer)
  {
    assert ([part] + rest)[1..] == rest;
  }

  lemma NestedText(comment: Comment, opener: string, closer: string)
    ensures Text(comment, opener, closer) == opener + Behind(comment.parts, opener, closer)
  {
  }

  /** The contents of a comment that is open at `j`, and its closer. */
  predicate Rest(text: string, j: nat, parts: seq<Part>, opener: string, closer: string) {
    Proper(parts, opener, closer) && At(text, j, Behind(parts, opener, closer))
  }

  type Scan = (nat, int) -> Option<nat>

  /** What the scan does at `j` with `depth` comments open. */
  predicate ScanStep(end: Scan, text: string, j: nat, depth: int, opener: string, closer: string) {
    if j >= |text| then end(j, depth) == None
    else if StartsWith(text, opener, j) then end(j, depth) == end(j + 2, depth + 1)
    else if StartsWith(text, closer, j) then end(j, depth) == if depth == 1 then Some(j + 2) else end(j + 2, depth - 1)
    else end(j, depth) == end(j + 1, depth)
  }

  ghost predicate Scans(end: Scan, text: string, opener: string, closer: string) {
    TwoMarks(opener, closer) && forall j, depth :: ScanStep(end, text, j, depth, opener, closer)
  }

  /** Behind one part of an open comment, the scan goes on at the same level. */
  lemma {:induction false} PassesPart(
    end: Scan, text: string, j: nat, part: Part, behind: string, to: nat, depth: nat, opener: string, closer: string)
    requires Scans(end, text, opener, closer) && depth >= 1 && |behind| >= 1
    requires ProperPart(part, behind, opener, closer) && At(text, j, PartText(part, opener, closer) + behind)
    requires to == j + |PartText(part, opener, closer)|
    ensures end(j, depth) == end(to, depth)
    decreases part
  {
    match part
    case Plain(c) => PassesPlain(end, text, j, c, behind, depth, opener, closer);
    case Nested(comment) =>
      NestedText(comment, opener, closer);
      OpensHere(end, text, j, Behind(comment.parts, opener, closer), behind, depth, opener, closer);
      ClosesOne(end, text, j + 2, comment.parts, to, depth + 1, opener, closer);
      assert end(to, depth + 1 - 1) == end(to, depth);
  }

  lemma NothingBehind(opener: string, closer: string)
    ensures Behind([], opener, closer) == closer
  {
    assert "" + closer == closer;
  }

  lemma ClosesHere(end: Scan, text: string, j: nat, depth: nat, opener: string, closer: string)
    requires Scans(end, text, opener, closer) && depth >= 1 && Rest(text, j, [], opener, closer)
    ensures Behind([], opener, closer) == closer
    ensures end(j, depth) ==
            if depth == 1 then Some(j + 2) else end(j + 2, depth - 1)
  {
    NothingBehind(opener, closer);
    StartsIsAt(text, j, closer);
    DifferentMarks(text, j, opener, closer);
    assert ScanStep(end, text, j, depth, opener, closer);
  }

  lemma OpensHere(
    end: Scan, text: string, j: nat, within: string, behind: string, depth: nat, opener: string, closer: string)
    requires Scans(end, text, opener, closer) && At(text, j, opener + within + behind)
    ensures At(text, j + 2, within)
    ensures end(j, depth) == end(j + 2, depth + 1)
  {
    AtBoth(text, j, opener + within, behind);
    AtBoth(text, j, opener, within);
    StartsIsAt(text, j, opener);
    assert ScanStep(end, text, j, depth, opener, closer);
  }

  lemma PassesPlain(
    end: Scan, text: string, j: nat, c: char, behind: string, depth: nat, opener: string, closer: string)
    requires Scans(end, text, opener, closer) && |behind| >= 1
    requires Quiet([c] + behind, opener, closer) && At(text, j, [c] + behind)
    ensures end(j, depth) == end(j + 1, depth)
  {
    BeginsAlike(text, j, [c] + behind, opener);
    BeginsAlike(text, j, [c] + behind, closer);
    assert ScanStep(end, text, j, depth, opener, closer);
  }

  /** Behind the contents and the closer of one open comment, the scan goes on one level up. */
  lemma {:induction false} ClosesOne(
    end: Scan, text: string, j: nat, parts: seq<Part>, to: nat, depth: nat, opener: string, closer: string)
    requires Scans(end, text, opener, closer) && depth >= 1 && Rest(text, j, parts, opener, closer)
    requires to == j + |Behind(parts, opener, closer)|
    ensures end(j, depth) == if depth == 1 then Some(to) else end(to, depth - 1)
    decreases parts
  {
    if parts == [] {
      ClosesHere(end, text, j, depth, opener, closer);
    } else {
      var first, rest := PartText(parts[0], opener, closer), parts[1..];
      FirstBehind(parts[0], rest, opener, closer);
      assert parts == [parts[0]] + rest;
      var next := j + |first|;
      PassesPart(end, text, j, parts[0], Behind(rest, opener, closer), next, depth, opener, closer);
      AtBoth(text, j, first, Behind(rest, opener, closer));
      ClosesOne(end, text, next, rest, to, depth, opener, closer);
    }
  }

  /** A scan that ends has run through the contents and the closer of the innermost open comment. */
  lemma {:induction false} ScansOne(end: Scan, text: string, j: nat, depth: nat, opener: string, closer: string)
    returns (parts: seq<Part>)
    requires Scans(end, text, opener, closer) && depth >= 1 && end(j, depth).Some?
    ensures Rest(text, j, parts, opener, closer)
    decreases |text| - j, 1
  {
    assert ScanStep(end, text, j, depth, opener, closer);
    if StartsWith(text, opener, j) {
      parts := ScansNested(end, text, j, depth, opener, closer);
    } else if StartsWith(text, closer, j) {
      parts := [];
      NothingBehind(opener, closer);
      StartsIsAt(text, j, closer);
    } else {
      var rest := ScansOne(end, text, j + 1, depth, opener, closer);
      parts := [Plain(text[j])] + rest;
      PlainStands(text, j, rest, opener, closer);
    }
  }

  lemma {:induction false} ScansNested(end: Scan, text: string, j: nat, depth: nat, opener: string, closer: string)
    returns (parts: seq<Part>)
    requires Scans(end, text, opener, closer) && depth >= 1 && end(j + 2, depth + 1).Some?
    requires StartsWith(text, opener, j)
    ensures Rest(text, j, parts, opener, closer)
    decreases |text| - j, 0
  {
    var inner := ScansOne(end, text, j + 2, depth + 1, opener, closer);
    var next := j + 2 + |Behind(inner, opener, closer)|;
    ClosesOne(end, text, j + 2, inner, next, depth + 1, opener, closer);
    assert end(next, depth + 1 - 1) == end(next, depth);
    var rest := ScansOne(end, text, next, depth, opener, closer);
    parts := [Nested(Comment(inner))] + rest;
    StartsIsAt(text, j, opener);
    NestedStands(text, j, inner, rest, opener, closer);
  }

  lemma NestedStands(text: string, j: nat, inner: seq<Part>, rest: seq<Part>, opener: string, closer: string)
    requires TwoMarks(opener, closer) && At(text, j, opener) && Rest(text, j + 2, inner, opener, closer)
    requires Rest(text, j + 2 + |Behind(inner, opener, closer)|, rest, opener, closer)
    ensures Rest(text, j, [Nested(Comment(inner))] + rest, opener, closer)
  {
    var part, within := Nested(Comment(inner)), Behind(inner, opener, closer);
    FirstBehind(part, rest, opener, closer);
    NestedText(Comment(inner), opener, closer);
    AtBoth(text, j, opener, within);
    AtBoth(text, j, opener + within, Behind(rest, opener, closer));
  }

  lemma PlainStands(text: string, j: nat, rest: seq<Part>, opener: string, closer: string)
    requires TwoMarks(opener, closer) && j < |text| && Rest(text, j + 1, rest, opener, closer)
    requires !StartsWith(text, opener, j) && !StartsWith(text, closer, j)
    ensures Rest(text, j, [Plain(text[j])] + rest, opener, closer)
  {
    var part, behind := Plain(text[j]), Behind(rest, opener, closer);
    FirstBehind(part, rest, opener, closer);
    AtBoth(text, j, [text[j]], behind);
    BeginsAlike(text, j, [text[j]] + behind, opener);
    BeginsAlike(text, j, [text[j]] + behind, closer);
  }

  /** The scan from an opener ends exactly behind the comment that begins there, and fails exactly when none does. */
  lemma CommentExactly(text: string, i: nat, opener: string, closer: string)
    requires TwoMarks(opener, closer) && StartsWith(text, opener, i)
    ensures forall j :: CommentEnd(text, i, 0, opener, closer) == Some(j) <==>
      i <= j <= |text| && IsComment(text[i..j], opener, closer)
  {
    var end := (j: nat, depth: int) => CommentEnd(text, j, depth, opener, closer);
    CommentEndScans(end, text, opener, closer);
    StartsIsAt(text, i, opener);
    assert ScanStep(end, text, i, 0, opener, closer);
    if CommentEnd(text, i, 0, opener, closer).Some? {
      var parts := ScansOne(end, text, i + 2, 1, opener, closer);
      ClosesOne(end, text, i + 2, parts, i + 2 + |Behind(parts, opener, closer)|, 1, opener, closer);
      CommentStands(text, i, parts, opener, closer);
    }
    forall j | i <= j <= |text| && IsComment(text[i..j], opener, closer)
      ensures CommentEnd(text, i, 0, opener, closer) == Some(j)
    {
      var comment: Comment :|
        Proper(comment.parts, opener, closer) && text[i..j] == Text(comment, opener, closer);
      CommentEnds(end, text, i, j, comment, opener, closer);
    }
  }

  lemma CommentStands(text: string, i: nat, parts: seq<Part>, opener: string, closer: string)
    requires TwoMarks(opener, closer) && At(text, i, opener) && Rest(text, i + 2, parts, opener, closer)
    ensures var j := i + 2 + |Behind(parts, opener, closer)|;
      j <= |text| && IsComment(text[i..j], opener, closer)
  {
    AtBoth(text, i, opener, Behind(parts, opener, closer));
    NestedText(Comment(parts), opener, closer);
    assert Proper(Comment(parts).parts, opener, closer);
  }

  lemma CommentEndScans(end: Scan, text: string, opener: string, closer: string)
    requires TwoMarks(opener, closer)
    requires forall j: nat, depth :: end(j, depth) == CommentEnd(text, j, depth, opener, closer)
    ensures Scans(end, text, opener, closer)
  {
    forall j: nat, depth ensures ScanStep(end, text, j, depth, opener, closer) {
      assert end(j, depth) == CommentEnd(text, j, depth, opener, closer);
    }
  }

  lemma CommentEnds(end: Scan, text: string, i: nat, j: nat, comment: Comment, opener: string, closer: string)
    requires Scans(end, text, opener, closer) && StartsWith(text, opener, i) && i <= j <= |text|
    requires Proper(comment.parts, opener, closer) && text[i..j] == Text(comment, opener, closer)
    ensures end(i, 0) == Some(j)
  {
    NestedText(comment, opener, closer);
    assert ScanStep(end, text, i, 0, opener, closer);
    assert |text[i..j]| == j - i;
    AtBoth(text, i, opener, Behind(comment.parts, opener, closer));
    ClosesOne(end, text, i + 2, comment.parts, j, 1, opener, closer);
  }

  method NestedCommentEnd(text: string, start: nat, opener: string, closer: string)
    returns (r: Result<nat, LexError>)
    requires opener != "" && closer != ""
    ensures var end := CommentEnd(text, start, 0, opener, closer);
            r == if end.Some? then Ok(end.value) else Refused(UnterminatedComment)
    ensures TwoMarks(opener, closer) && StartsWith(text, opener, start) ==>
      forall k :: r == Ok(k) <==> start <= k <= |text| && IsComment(text[start..k], opener, closer)
  {
    if TwoMarks(opener, closer) && StartsWith(text, opener, start) {
      CommentExactly(text, start, opener, closer);
    }
    var depth, j := 0, start;
    while j < |text|
      invariant CommentEnd(text, start, 0, opener, closer) == CommentEnd(text, j, depth, opener, closer)
    {
      if StartsWith(text, opener, j) {
        depth, j := depth + 1, j + |opener|;
      } else if StartsWith(text, closer, j) {
        depth, j := depth - 1, j + |closer|;
        if depth == 0 {
          return Ok(j);
        }
      } else {
        j := j + 1;
      }
    }
    return Refused(UnterminatedComment);
  }

  /** The first newline at or after `i`, or the end of the text. */
  function LineEnd(text: string, i: nat): (j: nat)
    requires i <= |text|
    ensures i <= j <= |text| && (j < |text| ==> text[j] == '\n')
    ensures forall k :: i <= k < j ==> text[k] != '\n'
    decreases |text| - i
  {
    if i == |text| || text[i] == '\n' then i else LineEnd(text, i + 1)
  }

  /** Each character of `out` is the one of `text` at the same place after `from`, kept or blanked. */
  predicate Aligned(text: string, from: nat, out: string) {
    && from + |out| <= |text|
    && forall k :: 0 <= k < |out| ==> out[k] == text[from + k] || out[k] == BlankChar(text[from + k])
  }

  lemma AlignedKeepsLines(text: string, from: nat, out: string)
    requires Aligned(text, from, out)
    ensures forall k :: 0 <= k < |out| ==> (out[k] == '\n' <==> text[from + k] == '\n')
  {
  }

  lemma AlignedAppend(text: string, from: nat, a: string, b: string)
    requires Aligned(text, from, a) && Aligned(text, from + |a|, b)
    ensures Aligned(text, from, a + b)
  {
    forall k | 0 <= k < |a + b|
      ensures (a + b)[k] == text[from + k] || (a + b)[k] == BlankChar(text[from + k])
    {
      if k >= |a| {
        assert (a + b)[k] == b[k - |a|];
      }
    }
  }

  lemma BlankIsAligned(text: string, from: nat, to: nat)
    requires from <= to <= |text|
    ensures Aligned(text, from, Blank(text[from..to]))
  {
  }
}
