/** String literals of TLA+ and Lean as text, and the scan for the closing quote that both lexers run. */
module Quoting {
  import opened Bytes
  import opened Blanking

  const QUOTE: string := "\""

  /** A character, or a backslash with the character behind it, whatever that is. */
  datatype Item = Bare(c: char) | Escaped(c: char)

  function ItemText(item: Item): string {
    match item
    case Bare(c) => [c]
    case Escaped(c) => ['\\', c]
  }

  function ItemsText(items: seq<Item>): string {
    if items == [] then "" else ItemText(items[0]) + ItemsText(items[1..])
  }

  predicate BareOk(c: char, multiline: bool) {
    c != '"' && c != '\\' && (c == '\n' ==> multiline)
  }

  predicate ItemsOk(items: seq<Item>, multiline: bool) {
    forall k :: 0 <= k < |items| && items[k].Bare? ==> BareOk(items[k].c, multiline)
  }

  /** Between two quotes, items among which is no bare quote or backslash, nor a line end unless those are allowed. */
  ghost predicate IsString(s: string, multiline: bool) {
    exists items :: ItemsOk(items, multiline) && s == QUOTE + (ItemsText(items) + QUOTE)
  }

  // ---------------------------------------------------------------- the scan

  predicate StringStep(end: nat -> Option<nat>, text: string, j: nat, multiline: bool) {
    if j >= |text| || (!multiline && text[j] == '\n') then end(j) == None
    else if text[j] == '"' then end(j) == Some(j + 1)
    else end(j) == end(if text[j] == '\\' then j + 2 else j + 1)
  }

  ghost predicate ScansString(end: nat -> Option<nat>, text: string, multiline: bool) {
    forall j :: StringStep(end, text, j, multiline)
  }

  lemma FirstItem(item: Item, rest: seq<Item>, multiline: bool)
    ensures ItemsText([item] + rest) + QUOTE == ItemText(item) + (ItemsText(rest) + QUOTE)
    ensures ItemsOk([item] + rest, multiline) <==>
      ItemsOk(rest, multiline) && (item.Bare? ==> BareOk(item.c, multiline))
  {
    var items := [item] + rest;
    assert items[1..] == rest;
    if ItemsOk(items, multiline) {
      assert items[0] == item;
      forall k | 0 <= k < |rest| && rest[k].Bare? ensures BareOk(rest[k].c, multiline) {
        assert items[k + 1] == rest[k];
      }
    }
  }

  /** The contents of a string that is open at `j`, and its closing quote. */
  predicate OpenString(text: string, j: nat, items: seq<Item>, multiline: bool) {
    ItemsOk(items, multiline) && At(text, j, ItemsText(items) + QUOTE)
  }

  lemma QuoteHere(text: string, j: nat)
    ensures At(text, j, QUOTE) <==> j < |text| && text[j] == '"'
  {
    assert At(text, j, QUOTE) ==> text[j..j + 1][0] == text[j];
  }

  lemma ItemHere(text: string, j: nat, item: Item)
    requires At(text, j, ItemText(item))
    ensures j < |text| && text[j] == if item.Bare? then item.c else '\\'
  {
    var s := ItemText(item);
    assert text[j..j + |s|][0] == s[0];
  }

  lemma {:induction false} StringCloses(
    end: nat -> Option<nat>, text: string, j: nat, items: seq<Item>, to: nat, multiline: bool)
    requires ScansString(end, text, multiline) && OpenString(text, j, items, multiline)
    requires to == j + |ItemsText(items) + QUOTE|
    ensures end(j) == Some(to)
    decreases |items|
  {
    assert StringStep(end, text, j, multiline);
    if items == [] {
      assert "" + QUOTE == QUOTE;
      QuoteHere(text, j);
    } else {
      var item, rest := items[0], items[1..];
      assert items == [item] + rest;
      FirstItem(item, rest, multiline);
      AtBoth(text, j, ItemText(item), ItemsText(rest) + QUOTE);
      ItemHere(text, j, item);
      StringCloses(end, text, j + |ItemText(item)|, rest, to, multiline);
    }
  }

  lemma {:induction false} StringScans(end: nat -> Option<nat>, text: string, j: nat, multiline: bool)
    returns (items: seq<Item>)
    requires ScansString(end, text, multiline) && end(j).Some?
    ensures OpenString(text, j, items, multiline)
    decreases |text| - j
  {
    assert StringStep(end, text, j, multiline);
    if text[j] == '"' {
      items := [];
      assert "" + QUOTE == QUOTE;
      QuoteHere(text, j);
    } else if text[j] == '\\' {
      var rest := StringScans(end, text, j + 2, multiline);
      items := [Escaped(text[j + 1])] + rest;
      ItemStands(text, j, Escaped(text[j + 1]), rest, multiline);
    } else {
      var rest := StringScans(end, text, j + 1, multiline);
      items := [Bare(text[j])] + rest;
      ItemStands(text, j, Bare(text[j]), rest, multiline);
    }
  }

  lemma ItemStands(text: string, j: nat, item: Item, rest: seq<Item>, multiline: bool)
    requires At(text, j, ItemText(item)) && (item.Bare? ==> BareOk(item.c, multiline))
    requires OpenString(text, j + |ItemText(item)|, rest, multiline)
    ensures OpenString(text, j, [item] + rest, multiline)
  {
    FirstItem(item, rest, multiline);
    AtBoth(text, j, ItemText(item), ItemsText(rest) + QUOTE);
  }

  lemma StringStands(end: nat -> Option<nat>, text: string, i: nat, multiline: bool) returns (j: nat)
    requires ScansString(end, text, multiline) && At(text, i, QUOTE) && end(i + 1).Some?
    ensures end(i + 1) == Some(j) && i <= j <= |text| && IsString(text[i..j], multiline)
  {
    var items := StringScans(end, text, i + 1, multiline);
    j := i + 1 + |ItemsText(items) + QUOTE|;
    StringCloses(end, text, i + 1, items, j, multiline);
    AtBoth(text, i, QUOTE, ItemsText(items) + QUOTE);
  }

  lemma StringEnds(end: nat -> Option<nat>, text: string, i: nat, j: nat, multiline: bool)
    requires ScansString(end, text, multiline) && i <= j <= |text| && IsString(text[i..j], multiline)
    ensures end(i + 1) == Some(j)
  {
    var items :| ItemsOk(items, multiline) && text[i..j] == QUOTE + (ItemsText(items) + QUOTE);
    assert |text[i..j]| == j - i;
    AtBoth(text, i, QUOTE, ItemsText(items) + QUOTE);
    StringCloses(end, text, i + 1, items, j, multiline);
  }

  /** The scan from an opening quote ends exactly behind the string that begins there, and fails exactly when none
      does. */
  lemma StringExactly(end: nat -> Option<nat>, text: string, i: nat, multiline: bool)
    requires ScansString(end, text, multiline) && i < |text| && text[i] == '"'
    ensures forall j :: end(i + 1) == Some(j) <==> i <= j <= |text| && IsString(text[i..j], multiline)
  {
    QuoteHere(text, i);
    if end(i + 1).Some? {
      var j := StringStands(end, text, i, multiline);
    }
    forall j | i <= j <= |text| && IsString(text[i..j], multiline) ensures end(i + 1) == Some(j) {
      StringEnds(end, text, i, j, multiline);
    }
  }
}
