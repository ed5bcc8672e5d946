/** Decoded JSON values, as Python holds them: a dictionary keeps its keys in order and has each once. */
module Json {
  import opened Bytes

  datatype FloatNumber = Finite(r: real) | NaN | Infinity(negative: bool)

  datatype Json =
    | Null
    | Bool(b: bool)
    | Int(n: int)
    | Float(f: FloatNumber)
    | Str(s: string)
    | Arr(items: seq<Json>)
    | Obj(keys: seq<string>, items: seq<Json>)

  predicate Distinct(keys: seq<string>) {
    forall i, j :: 0 <= i < j < |keys| ==> keys[i] != keys[j]
  }

  predicate Container(j: Json) {
    j.Arr? || j.Obj?
  }

  predicate WellFormed(j: Json) {
    && (j.Obj? ==> |j.keys| == |j.items| && Distinct(j.keys))
    && (Container(j) ==> forall i :: 0 <= i < |j.items| ==> WellFormed(j.items[i]))
  }

  function Size(j: Json): (n: nat)
    ensures n >= 1
    decreases j, 1
  {
    if Container(j) then 1 + SizeAll(j.items) else 1
  }

  function SizeAll(js: seq<Json>): nat
    decreases js, 0
  {
    if js == [] then 0 else Size(js[0]) + SizeAll(js[1..])
  }

  /** How many containers are nested in one another; a scalar nests none. */
  function Depth(j: Json): (d: nat)
    decreases j, 1
  {
    if Container(j) then 1 + MaxDepth(j.items) else 0
  }

  function MaxDepth(js: seq<Json>): nat
    decreases js, 0
  {
    if js == [] then 0 else
      var a, b := Depth(js[0]), MaxDepth(js[1..]);
      if a > b then a else b
  }

  lemma {:induction false} MaxDepthIsMax(js: seq<Json>, bound: int)
    ensures MaxDepth(js) > bound <==> bound < 0 || exists i :: 0 <= i < |js| && Depth(js[i]) > bound
  {
    if js != [] {
      MaxDepthIsMax(js[1..], bound);
      if Depth(js[0]) > bound {
      } else if MaxDepth(js[1..]) > bound && bound >= 0 {
        var i :| 0 <= i < |js| - 1 && Depth(js[1..][i]) > bound;
        assert Depth(js[i + 1]) > bound;
      }
      if bound >= 0 && exists i :: 0 <= i < |js| && Depth(js[i]) > bound {
        var i :| 0 <= i < |js| && Depth(js[i]) > bound;
        if i > 0 {
          assert js[1..][i - 1] == js[i];
        }
      }
    }
  }

  /** Where `key` is, or the number of keys. */
  function IndexOf(keys: seq<string>, key: string): (k: nat)
    ensures k <= |keys|
    ensures k < |keys| ==> keys[k] == key
    ensures k == |keys| ==> key !in keys
  {
    if keys == [] || keys[0] == key then 0 else 1 + IndexOf(keys[1..], key)
  }

  /** `value.get(key, default)` */
  function Get(j: Json, key: string, default: Json): Json
    requires j.Obj?
  {
    var k := IndexOf(j.keys, key);
    if k < |j.keys| && k < |j.items| then j.items[k] else default
  }

  /** `str(n)` for a list index. */
  function Decimal(n: nat): string {
    if n < 10 then [Digit(n)] else Decimal(n / 10) + [Digit(n % 10)]
  }

  function Digit(d: nat): char
    requires d < 10
  {
    "0123456789"[d]
  }
}

/** scripts/claim_proof_bundle_checker.py, the walks that replace recursion by an explicit stack:
    `_json_depth_exceeds`, `_check_generations` and `_scan_nan_inf_negative`. */
module Worklist {
  import opened Bytes
  import opened Json

  // ---------------------------------------------------------------- nesting depth

  datatype AtDepth = AtDepth(node: Json, depth: int)

  function Pending(stack: seq<AtDepth>): nat {
    if stack == [] then 0 else Size(stack[|stack| - 1].node) + Pending(stack[..|stack| - 1])
  }

  function Below(js: seq<Json>, depth: int): seq<AtDepth> {
    seq(|js|, i requires 0 <= i < |js| => AtDepth(js[i], depth))
  }

  lemma {:induction false} PendingBelow(stack: seq<AtDepth>, js: seq<Json>, depth: int)
    ensures Pending(stack + Below(js, depth)) == Pending(stack) + SizeAll(js)
    decreases |js|
  {
    if js == [] {
      assert stack + Below(js, depth) == stack;
    } else {
      var first := stack + [AtDepth(js[0], depth)];
      assert first[..|first| - 1] == stack;
      assert stack + Below(js, depth) == first + Below(js[1..], depth);
      PendingBelow(first, js[1..], depth);
    }
  }

  /** Some node still on the stack nests past the limit. */
  ghost predicate TooDeep(stack: seq<AtDepth>, limit: int) {
    exists k :: 0 <= k < |stack| && Container(stack[k].node) && stack[k].depth - 1 + Depth(stack[k].node) > limit
  }

  lemma Unfolds(rest: seq<AtDepth>, node: Json, depth: int, limit: int)
    requires Container(node) && depth <= limit
    ensures TooDeep(rest + [AtDepth(node, depth)], limit) <==>
            TooDeep(rest + Below(node.items, depth + 1), limit)
  {
    var before, below := rest + [AtDepth(node, depth)], Below(node.items, depth + 1);
    var after := rest + below;
    MaxDepthIsMax(node.items, limit - depth);
    if TooDeep(before, limit) {
      var k :| 0 <= k < |before| && Container(before[k].node) && before[k].depth - 1 + Depth(before[k].node) > limit;
      if k == |rest| {
        var i :| 0 <= i < |node.items| && Depth(node.items[i]) > limit - depth;
        assert after[|rest| + i] == AtDepth(node.items[i], depth + 1);
      } else {
        assert after[k] == before[k];
      }
    }
    if TooDeep(after, limit) {
      var k :| 0 <= k < |after| && Container(after[k].node) && after[k].depth - 1 + Depth(after[k].node) > limit;
      if k < |rest| {
        assert before[k] == after[k];
      } else {
        assert Depth(node.items[k - |rest|]) > limit - depth;
        assert before[|rest|] == AtDepth(node, depth);
      }
    }
  }

  /** True exactly when containers nest deeper than the limit. */
  method JsonDepthExceeds(value: Json, limit: nat) returns (r: bool)
    ensures r <==> Depth(value) > limit
  {
    var stack := [AtDepth(value, 1)];
    assert TooDeep(stack, limit) <==> Depth(value) > limit by {
      assert stack[0] == AtDepth(value, 1);
    }
    while stack != []
      invariant TooDeep(stack, limit) <==> Depth(value) > limit
      decreases Pending(stack)
    {
      var last := |stack| - 1;
      var AtDepth(node, depth) := stack[last];
      var rest := stack[..last];
      assert stack == rest + [AtDepth(node, depth)];
      if Container(node) {
        if depth > limit {
          assert stack[last].depth - 1 + Depth(stack[last].node) > limit;
          return true;
        }
        Unfolds(rest, node, depth, limit);
        PendingBelow(rest, node.items, depth + 1);
        stack := rest + Below(node.items, depth + 1);
      } else {
        stack := rest;
      }
    }
    return false;
  }

  // ---------------------------------------------------------------- document-order walks

  datatype Entry = Entry(node: Json, loc: string, inside: bool)

  datatype Finding =
    | StaleGeneration(loc: string)
    | LatestAlias(loc: string, text: string)
    | Tombstoned(loc: string, text: string)
    | NotANumber(loc: string)

  /** What a walk reports at one node, and the keys under which it looks closer. */
  datatype Walker = Walker(own: Entry -> seq<Finding>, under: string -> bool)

  function ChildLoc(e: Entry, i: nat): string
    requires Container(e.node) && i < |e.node.items| && WellFormed(e.node)
  {
    if e.node.Arr? then e.loc + "[" + Decimal(i) + "]"
    else if e.loc == "" then e.node.keys[i]
    else e.loc + "." + e.node.keys[i]
  }

  function Child(w: Walker, e: Entry, i: nat): Entry
    requires Container(e.node) && i < |e.node.items| && WellFormed(e.node)
  {
    Entry(e.node.items[i], ChildLoc(e, i), e.inside || (e.node.Obj? && w.under(e.node.keys[i])))
  }

  function Children(w: Walker, e: Entry): (es: seq<Entry>)
    requires WellFormed(e.node)
    ensures AllWellFormed(es)
  {
    if Container(e.node) then
      seq(|e.node.items|, i requires 0 <= i < |e.node.items| => Child(w, e, i))
    else []
  }

  predicate AllWellFormed(es: seq<Entry>) {
    forall k :: 0 <= k < |es| ==> WellFormed(es[k].node)
  }

  function Weight(es: seq<Entry>): nat {
    if es == [] then 0 else Size(es[0].node) + Weight(es[1..])
  }

  lemma {:induction false} WeightIsSize(es: seq<Entry>, js: seq<Json>)
    requires |es| == |js| && forall i :: 0 <= i < |js| ==> es[i].node == js[i]
    ensures Weight(es) == SizeAll(js)
  {
    if js != [] {
      WeightIsSize(es[1..], js[1..]);
    }
  }

  lemma ChildrenWeighLess(w: Walker, e: Entry)
    requires WellFormed(e.node)
    ensures Weight(Children(w, e)) < Size(e.node)
  {
    if Container(e.node) {
      WeightIsSize(Children(w, e), e.node.items);
    }
  }

  /** The recursive walk in document order: what a node reports, then each child in turn. */
  function Walk(w: Walker, e: Entry): seq<Finding>
    requires WellFormed(e.node)
    decreases Size(e.node), 0
  {
    ChildrenWeighLess(w, e);
    w.own(e) + WalkAll(w, Children(w, e))
  }

  function WalkAll(w: Walker, es: seq<Entry>): seq<Finding>
    requires AllWellFormed(es)
    decreases Weight(es), |es|
  {
    if es == [] then [] else Walk(w, es[0]) + WalkAll(w, es[1..])
  }

  /** A stack is walked from its end. */
  function Reversed(es: seq<Entry>): (r: seq<Entry>)
    ensures |r| == |es|
    ensures AllWellFormed(es) ==> AllWellFormed(r)
    ensures forall k :: 0 <= k < |es| ==> r[k] == es[|es| - 1 - k]
  {
    seq(|es|, k requires 0 <= k < |es| => es[|es| - 1 - k])
  }

  lemma {:induction false} WalkAllAppend(w: Walker, a: seq<Entry>, b: seq<Entry>)
    requires AllWellFormed(a) && AllWellFormed(b)
    ensures WalkAll(w, a + b) == WalkAll(w, a) + WalkAll(w, b)
    decreases |a|
  {
    if a == [] {
      assert a + b == b;
    } else {
      assert (a + b)[1..] == a[1..] + b;
      WalkAllAppend(w, a[1..], b);
    }
  }

  lemma {:induction false} WeightAppend(a: seq<Entry>, b: seq<Entry>)
    ensures Weight(a + b) == Weight(a) + Weight(b)
  {
    if a == [] {
      assert a + b == b;
    } else {
      assert (a + b)[1..] == a[1..] + b;
      WeightAppend(a[1..], b);
    }
  }

  /** Taking the top of the stack and pushing its children in reverse keeps the findings that are still
      to come, and makes the stack lighter. */
  lemma PopAndPush(w: Walker, rest: seq<Entry>, e: Entry)
    requires AllWellFormed(rest) && WellFormed(e.node)
    ensures AllWellFormed(rest + Reversed(Children(w, e)))
    ensures WalkAll(w, Reversed(rest + [e])) ==
            w.own(e) + WalkAll(w, Reversed(rest + Reversed(Children(w, e))))
    ensures Weight(Reversed(rest + Reversed(Children(w, e)))) < Weight(Reversed(rest + [e]))
  {
    var children, behind := Children(w, e), Reversed(rest);
    ReversedParts(rest, e, children);
    WalkAllAppend(w, children, behind);
    WeightAppend(children, behind);
    ChildrenWeighLess(w, e);
    assert ([e] + behind)[1..] == behind;
    Assoc(w.own(e), WalkAll(w, children), WalkAll(w, behind));
  }

  lemma ReversedParts(rest: seq<Entry>, e: Entry, children: seq<Entry>)
    ensures Reversed(rest + [e]) == [e] + Reversed(rest)
    ensures Reversed(rest + Reversed(children)) == children + Reversed(rest)
  {
  }

  method PushReversed(w: Walker, rest: seq<Entry>, e: Entry) returns (stack: seq<Entry>)
    requires WellFormed(e.node) && Container(e.node)
    ensures stack == rest + Reversed(Children(w, e))
  {
    stack := rest;
    var n := |e.node.items|;
    ghost var all := Reversed(Children(w, e));
    for idx := n downto 0
      invariant stack == rest + all[..n - idx]
    {
      var child := Child(w, e, idx);
      TakeOneMore(rest, all, n - idx - 1, child);
      stack := stack + [child];
    }
    assert all[..n] == all;
  }

  lemma TakeOneMore(rest: seq<Entry>, all: seq<Entry>, k: nat, x: Entry)
    requires k < |all| && all[k] == x
    ensures rest + all[..k] + [x] == rest + all[..k + 1]
  {
    assert all[..k + 1] == all[..k] + [x];
    Assoc(rest, all[..k], [x]);
  }

  /** The state after one turn of the loop. */
  lemma NextOnStack(w: Walker, rest: seq<Entry>, e: Entry, findings: seq<Finding>, found: seq<Finding>)
    requires AllWellFormed(rest) && WellFormed(e.node) && found == w.own(e)
    ensures var next := if Container(e.node) then rest + Reversed(Children(w, e)) else rest;
            && AllWellFormed(next)
            && findings + WalkAll(w, Reversed(rest + [e])) == (findings + found) + WalkAll(w, Reversed(next))
            && Weight(Reversed(next)) < Weight(Reversed(rest + [e]))
  {
    PopAndPush(w, rest, e);
    var next := rest + Reversed(Children(w, e));
    assert !Container(e.node) ==> next == rest;
    Assoc(findings, found, WalkAll(w, Reversed(next)));
  }

  lemma StartOfWalk(w: Walker, e: Entry)
    requires WellFormed(e.node)
    ensures WalkAll(w, Reversed([e])) == Walk(w, e)
  {
    assert Reversed([e]) == [e] && [e][1..] == [];
    assert WalkAll(w, [e]) == Walk(w, e) + WalkAll(w, []);
  }

  /** The loop both walks run: pop, report, push the children in reverse. */
  method WalkWithStack(w: Walker, root: Entry) returns (findings: seq<Finding>)
    requires WellFormed(root.node)
    ensures findings == Walk(w, root)
  {
    findings := [];
    var stack := [root];
    ghost var total := Walk(w, root);
    StartOfWalk(w, root);
    while stack != []
      invariant AllWellFormed(stack)
      invariant total == findings + WalkAll(w, Reversed(stack))
      decreases Weight(Reversed(stack))
    {
      var e, rest := stack[|stack| - 1], stack[..|stack| - 1];
      assert stack == rest + [e];
      NextOnStack(w, rest, e, findings, w.own(e));
      findings := findings + w.own(e);
      stack := rest;
      if Container(e.node) {
        stack := PushReversed(w, rest, e);
      }
    }
  }

  // ---------------------------------------------------------------- generations

  /** What the generation scan takes from elsewhere: the normalized status vocabulary, the alias and
      tombstone tests and the naming rule for keys. */
  datatype GenerationRules = GenerationRules(
    staleStatus: Json -> bool, latest: string -> bool, tombstoned: string -> bool, generationKey: string -> bool)

  predicate Truthy(j: Json) {
    match j
    case Null => false
    case Bool(b) => b
    case Int(n) => n != 0
    case Float(f) => f != Finite(0.0)
    case Str(s) => s != ""
    case Arr(items) => items != []
    case Obj(_, items) => items != []
  }

  function GenerationWalker(rules: GenerationRules): Walker {
    Walker(e => GenerationFindings(rules, e), rules.generationKey)
  }

  function GenerationFindings(rules: GenerationRules, e: Entry): seq<Finding> {
    if !e.inside then []
    else if e.node.Obj? then
      if Truthy(Get(e.node, "is_stale", Bool(false))) || Truthy(Get(e.node, "stale", Bool(false))) ||
         Truthy(Get(e.node, "superseded", Bool(false))) || rules.staleStatus(Get(e.node, "status", Str("")))
      then [StaleGeneration(e.loc)] else []
    else if e.node.Str? then
      (if rules.latest(e.node.s) then [LatestAlias(e.loc, e.node.s)] else []) +
      (if rules.tombstoned(e.node.s) then [Tombstoned(e.loc, e.node.s)] else [])
    else []
  }

  /** The explicit stack reports what the recursive walk in document order reports, in that order. */
  method CheckGenerations(rules: GenerationRules, data: Json) returns (findings: seq<Finding>)
    requires WellFormed(data)
    ensures findings == Walk(GenerationWalker(rules), Entry(data, "", false))
  {
    findings := WalkWithStack(GenerationWalker(rules), Entry(data, "", false));
  }

  // ---------------------------------------------------------------- NaN and infinity

  function NumberWalker(nanText: string -> bool): Walker {
    Walker(e => NumberFindings(nanText, e), _ => false)
  }

  function NumberFindings(nanText: string -> bool, e: Entry): seq<Finding> {
    if (e.node.Float? && !e.node.f.Finite?) || (e.node.Str? && nanText(e.node.s)) then [NotANumber(e.loc)] else []
  }

  method ScanNanInfNegative(nanText: string -> bool, obj: Json, location: string)
    returns (hasError: bool, findings: seq<Finding>)
    requires WellFormed(obj)
    ensures findings == Walk(NumberWalker(nanText), Entry(obj, location, false))
    ensures hasError <==> findings != []
  {
    findings := WalkWithStack(NumberWalker(nanText), Entry(obj, location, false));
    hasError := findings != [];
  }
}
