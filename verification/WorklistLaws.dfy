/** What the document walks report, said of the nodes of the document and the places where they stand. */
module WorklistLaws {
  import opened Bytes
  import opened Json
  import opened Worklist

  // ---------------------------------------------------------------- places in a document

  /** A path names a child by its number at each step. */
  predicate Leads(j: Json, path: seq<nat>)
    decreases |path|
  {
    path != [] ==> Container(j) && path[0] < |j.items| && Leads(j.items[path[0]], path[1..])
  }

  function NodeAt(j: Json, path: seq<nat>): (r: Json)
    requires Leads(j, path)
    ensures WellFormed(j) ==> WellFormed(r)
    decreases |path|
  {
    if path == [] then j else NodeAt(j.items[path[0]], path[1..])
  }

  /** The name of that place: fields joined by dots, list positions in brackets. */
  function LocationAt(j: Json, path: seq<nat>, from: string): string
    requires Leads(j, path) && WellFormed(j)
    decreases |path|
  {
    if path == [] then from
    else LocationAt(j.items[path[0]], path[1..], NameOf(j, path[0], from))
  }

  function NameOf(j: Json, i: nat, from: string): string
    requires WellFormed(j) && Container(j) && i < |j.items|
  {
    if j.Arr? then from + "[" + Decimal(i) + "]" else if from == "" then j.keys[i] else from + "." + j.keys[i]
  }

  /** Some field on the way has a key of this kind. */
  predicate ThroughKey(j: Json, path: seq<nat>, kind: string -> bool)
    requires Leads(j, path) && WellFormed(j)
    decreases |path|
  {
    path != [] && ((j.Obj? && kind(j.keys[path[0]])) || ThroughKey(j.items[path[0]], path[1..], kind))
  }

  function EntryAt(w: Walker, e: Entry, path: seq<nat>): Entry
    requires Leads(e.node, path) && WellFormed(e.node)
  {
    Entry(NodeAt(e.node, path), LocationAt(e.node, path, e.loc), e.inside || ThroughKey(e.node, path, w.under))
  }

  // ---------------------------------------------------------------- a walk reports what each node does

  ghost predicate Somewhere(w: Walker, e: Entry, f: Finding)
    requires WellFormed(e.node)
  {
    exists path :: Leads(e.node, path) && f in w.own(EntryAt(w, e, path))
  }

  lemma {:induction false} InWalkAll(w: Walker, es: seq<Entry>, f: Finding)
    requires AllWellFormed(es)
    ensures f in WalkAll(w, es) <==> exists i :: 0 <= i < |es| && f in Walk(w, es[i])
    decreases |es|
  {
    if es != [] {
      InWalkAll(w, es[1..], f);
      if f in WalkAll(w, es[1..]) {
        var i :| 0 <= i < |es[1..]| && f in Walk(w, es[1..][i]);
        assert f in Walk(w, es[i + 1]);
      }
      if i :| 0 <= i < |es| && f in Walk(w, es[i]) {
        if i > 0 {
          assert es[1..][i - 1] == es[i];
        }
      }
    }
  }

  lemma ThroughChild(w: Walker, e: Entry, i: nat, path: seq<nat>)
    requires WellFormed(e.node) && Container(e.node) && i < |e.node.items| && Leads(e.node.items[i], path)
    ensures Leads(e.node, [i] + path) && EntryAt(w, e, [i] + path) == EntryAt(w, Child(w, e, i), path)
  {
    assert ([i] + path)[1..] == path;
  }

  lemma HereOrBelow(w: Walker, e: Entry, f: Finding)
    requires WellFormed(e.node) && Somewhere(w, e, f)
    ensures f in w.own(e) || exists i :: 0 <= i < |Children(w, e)| && Somewhere(w, Children(w, e)[i], f)
  {
    var path :| Leads(e.node, path) && f in w.own(EntryAt(w, e, path));
    if path != [] {
      var i, rest := path[0], path[1..];
      assert path == [i] + rest;
      ThroughChild(w, e, i, rest);
      assert Somewhere(w, Children(w, e)[i], f);
    }
  }

  lemma HereToo(w: Walker, e: Entry, f: Finding)
    requires WellFormed(e.node) && f in w.own(e)
    ensures Somewhere(w, e, f)
  {
    assert Leads(e.node, []) && EntryAt(w, e, []) == e;
  }

  lemma BelowToo(w: Walker, e: Entry, i: nat, f: Finding)
    requires WellFormed(e.node) && i < |Children(w, e)| && Somewhere(w, Children(w, e)[i], f)
    ensures Somewhere(w, e, f)
  {
    var child := Children(w, e)[i];
    var path :| Leads(child.node, path) && f in w.own(EntryAt(w, child, path));
    ThroughChild(w, e, i, path);
  }

  lemma BelowOrHere(w: Walker, e: Entry, f: Finding)
    requires WellFormed(e.node)
    ensures Somewhere(w, e, f) <==>
      f in w.own(e) || exists i :: 0 <= i < |Children(w, e)| && Somewhere(w, Children(w, e)[i], f)
  {
    if Somewhere(w, e, f) {
      HereOrBelow(w, e, f);
    }
    if f in w.own(e) {
      HereToo(w, e, f);
    }
    if i :| 0 <= i < |Children(w, e)| && Somewhere(w, Children(w, e)[i], f) {
      BelowToo(w, e, i, f);
    }
  }

  /** A finding is reported exactly when the node at some place in the document gives it. */
  lemma {:induction false} ReportedExactly(w: Walker, e: Entry, f: Finding)
    requires WellFormed(e.node)
    ensures f in Walk(w, e) <==> Somewhere(w, e, f)
    decreases e.node
  {
    var children := Children(w, e);
    InWalkAll(w, children, f);
    BelowOrHere(w, e, f);
    forall i | 0 <= i < |children| ensures f in Walk(w, children[i]) <==> Somewhere(w, children[i], f) {
      ReportedExactly(w, children[i], f);
    }
    assert f in Walk(w, e) <==> f in w.own(e) || f in WalkAll(w, children);
  }

  // ---------------------------------------------------------------- generations

  ghost predicate HasField(node: Json, keys: set<string>, test: Json -> bool) {
    node.Obj? && exists i :: 0 <= i < |node.keys| && i < |node.items| && node.keys[i] in keys && test(node.items[i])
  }

  /** A flag that is set, or a status, empty where there is none, that is a stale one. */
  ghost predicate Stale(rules: GenerationRules, node: Json) {
    || HasField(node, {"is_stale", "stale", "superseded"}, Truthy)
    || HasField(node, {"status"}, rules.staleStatus)
    || (node.Obj? && "status" !in node.keys && rules.staleStatus(Str("")))
  }

  lemma GetIsField(node: Json, key: string, default: Json, test: Json -> bool)
    requires WellFormed(node) && node.Obj?
    ensures test(Get(node, key, default)) <==>
      HasField(node, {key}, test) || (key !in node.keys && test(default))
  {
    var k := IndexOf(node.keys, key);
    if HasField(node, {key}, test) {
      var i :| 0 <= i < |node.keys| && i < |node.items| && node.keys[i] in {key} && test(node.items[i]);
      assert node.keys[i] == key && node.keys[k] == key && i == k;
    }
  }

  lemma AnyFlag(node: Json, a: string, b: string, c: string)
    ensures HasField(node, {a, b, c}, Truthy) <==>
      HasField(node, {a}, Truthy) || HasField(node, {b}, Truthy) || HasField(node, {c}, Truthy)
  {
    if HasField(node, {a, b, c}, Truthy) {
      var i :| 0 <= i < |node.keys| && i < |node.items| && node.keys[i] in {a, b, c} && Truthy(node.items[i]);
      assert node.keys[i] in {a} || node.keys[i] in {b} || node.keys[i] in {c};
    }
  }

  lemma StaleExactly(rules: GenerationRules, e: Entry, loc: string)
    requires WellFormed(e.node)
    ensures StaleGeneration(loc) in GenerationFindings(rules, e) <==> e.inside && e.loc == loc && Stale(rules, e.node)
  {
    if e.node.Obj? {
      AnyFlag(e.node, "is_stale", "stale", "superseded");
      GetIsField(e.node, "is_stale", Bool(false), Truthy);
      GetIsField(e.node, "stale", Bool(false), Truthy);
      GetIsField(e.node, "superseded", Bool(false), Truthy);
      GetIsField(e.node, "status", Str(""), rules.staleStatus);
    }
  }

  /** A place below a field that holds generations. */
  predicate Held(rules: GenerationRules, data: Json, path: seq<nat>, loc: string)
    requires WellFormed(data)
  {
    Leads(data, path) && LocationAt(data, path, "") == loc && ThroughKey(data, path, rules.generationKey)
  }

  /** What the generation scan finds: the stale objects, the aliases and the tombstoned identifiers that stand below a
      field that holds generations, each under its place, and nothing else. */
  lemma GenerationsExactly(rules: GenerationRules, data: Json, f: Finding)
    requires WellFormed(data)
    ensures f in Walk(GenerationWalker(rules), Entry(data, "", false)) <==>
      match f
      case StaleGeneration(loc) => exists path :: Held(rules, data, path, loc) && Stale(rules, NodeAt(data, path))
      case LatestAlias(loc, text) =>
        rules.latest(text) && exists path :: Held(rules, data, path, loc) && NodeAt(data, path) == Str(text)
      case Tombstoned(loc, text) =>
        rules.tombstoned(text) && exists path :: Held(rules, data, path, loc) && NodeAt(data, path) == Str(text)
      case NotANumber(_) => false
  {
    var w, root := GenerationWalker(rules), Entry(data, "", false);
    ReportedExactly(w, root, f);
    forall path | Leads(data, path)
      ensures f in w.own(EntryAt(w, root, path)) <==> GivenAt(rules, data, path, f)
    {
      NodeGives(rules, data, path, f);
    }
    if Somewhere(w, root, f) {
      var path :| Leads(data, path) && f in w.own(EntryAt(w, root, path));
      assert GivenAt(rules, data, path, f);
    }
    if path :| Leads(data, path) && GivenAt(rules, data, path, f) {
      assert f in w.own(EntryAt(w, root, path));
    }
  }

  ghost predicate GivenAt(rules: GenerationRules, data: Json, path: seq<nat>, f: Finding)
    requires WellFormed(data) && Leads(data, path)
  {
    match f
    case StaleGeneration(loc) => Held(rules, data, path, loc) && Stale(rules, NodeAt(data, path))
    case LatestAlias(loc, text) => rules.latest(text) && Held(rules, data, path, loc) && NodeAt(data, path) == Str(text)
    case Tombstoned(loc, text) =>
      rules.tombstoned(text) && Held(rules, data, path, loc) && NodeAt(data, path) == Str(text)
    case NotANumber(_) => false
  }

  lemma NodeGives(rules: GenerationRules, data: Json, path: seq<nat>, f: Finding)
    requires WellFormed(data) && Leads(data, path)
    ensures f in GenerationWalker(rules).own(EntryAt(GenerationWalker(rules), Entry(data, "", false), path)) <==>
      GivenAt(rules, data, path, f)
  {
    var e := EntryAt(GenerationWalker(rules), Entry(data, "", false), path);
    if f.StaleGeneration? {
      StaleExactly(rules, e, f.loc);
    }
  }

  // ---------------------------------------------------------------- numbers

  predicate NoNumber(nanText: string -> bool, node: Json) {
    || (node.Float? && (node.f.NaN? || node.f.Infinity?))
    || (node.Str? && nanText(node.s))
  }

  /** What the number scan finds: the floats that are no finite numbers and the text that names one, under their
      places. */
  lemma NumbersExactly(nanText: string -> bool, data: Json, location: string, f: Finding)
    requires WellFormed(data)
    ensures f in Walk(NumberWalker(nanText), Entry(data, location, false)) <==>
      exists path :: NumberAt(nanText, data, path, location, f)
  {
    var w, root := NumberWalker(nanText), Entry(data, location, false);
    ReportedExactly(w, root, f);
    forall path | Leads(data, path)
      ensures f in w.own(EntryAt(w, root, path)) <==> NumberAt(nanText, data, path, location, f)
    {
      NumberGives(nanText, data, path, location, f);
    }
    if Somewhere(w, root, f) {
      var path :| Leads(data, path) && f in w.own(EntryAt(w, root, path));
      assert NumberAt(nanText, data, path, location, f);
    }
    if path :| Leads(data, path) && NumberAt(nanText, data, path, location, f) {
      assert f in w.own(EntryAt(w, root, path));
    }
  }

  predicate NumberAt(nanText: string -> bool, data: Json, path: seq<nat>, location: string, f: Finding)
    requires WellFormed(data)
  {
    && f.NotANumber? && Leads(data, path)
    && LocationAt(data, path, location) == f.loc && NoNumber(nanText, NodeAt(data, path))
  }

  lemma NumberGives(nanText: string -> bool, data: Json, path: seq<nat>, location: string, f: Finding)
    requires WellFormed(data) && Leads(data, path)
    ensures f in NumberWalker(nanText).own(EntryAt(NumberWalker(nanText), Entry(data, location, false), path)) <==>
      NumberAt(nanText, data, path, location, f)
  {
  }
}
