/** Every report of the evaluator, said of the values and subschemas that the document leads to. */
module SchemaReports {
  import opened Bytes
  import opened Json
  import opened Schema
  import V = SchemaViolations
  import opened SchemaDocument
  import opened SchemaMeaning
  import Rules = SchemaRules

  // ---------------------------------------------------------------- what a document leads to

  /** A value under the subschema that applies to it, and where the value stands. */
  datatype Visit = Visit(v: Json, doc: Json, at: V.Path)

  /** One keyword leads from a value to its items or fields. */
  ghost predicate StepBy(e: Visit, kw: Keyword, d: Json, declared: iset<string>, c: Visit) {
    match kw
    case Elements =>
      e.v.Arr? && d.Obj? &&
      exists k | 0 <= k < |e.v.items| :: c == Visit(e.v.items[k], d, V.InArray(e.at, k))
    case Fields => e.v.Obj? && d.Obj? && exists k, j :: ToField(e, d, c, k, j)
    case OtherFields =>
      e.v.Obj? && d.Obj? &&
      exists k | 0 <= k < |e.v.keys| && k < |e.v.items| ::
        e.v.keys[k] !in declared && c == Visit(e.v.items[k], d, V.InObject(e.at, e.v.keys[k]))
    case _ => false
  }

  predicate ToField(e: Visit, d: Json, c: Visit, k: int, j: int)
    requires e.v.Obj? && d.Obj?
  {
    && 0 <= k < |e.v.keys| && k < |e.v.items| && 0 <= j < |d.keys| && j < |d.items|
    && e.v.keys[k] == d.keys[j] && c == Visit(e.v.items[k], d.items[j], V.InObject(e.at, e.v.keys[k]))
  }

  ghost predicate Step(w: Vocabulary, e: Visit, c: Visit)
    ensures Step(w, e, c) ==> (e.doc decreases to c.doc)
  {
    && e.doc.Obj?
    && exists i | 0 <= i < |e.doc.keys| && i < |e.doc.items| ::
         StepBy(e, w.keyword(e.doc.keys[i]), e.doc.items[i], Declared(w, e.doc), c)
  }

  ghost predicate Reaches(w: Vocabulary, e: Visit, c: Visit)
    decreases e.doc
  {
    c == e || exists m :: Step(w, e, m) && Reaches(w, m, c)
  }

  // ---------------------------------------------------------------- one level down

  /** Something that may hold of a value, the schema that applies to it and its place. */
  type Claim = (Json, Schema, V.Path) -> bool

  ghost predicate HoldsOf(g: Claim, c: Visit) {
    g(c.v, SchemaOf(c.doc), c.at)
  }

  /** The claim holds one level below by way of this keyword. */
  ghost predicate BelowBy(g: Claim, e: Visit, kw: Keyword, d: Json, declared: iset<string>) {
    exists c :: StepBy(e, kw, d, declared, c) && HoldsOf(g, c)
  }

  ghost predicate Below(g: Claim, w: Vocabulary, e: Visit) {
    exists c :: Step(w, e, c) && HoldsOf(g, c)
  }

  ghost predicate UnderBelow(g: Claim, w: Vocabulary, e: Visit, kw: Keyword, o: Option<Json>)
    requires e.doc.Obj?
  {
    o.Some? && BelowBy(g, e, kw, o.value, Declared(w, e.doc))
  }

  lemma BelowByKeyword(g: Claim, w: Vocabulary, e: Visit, k: Keywords)
    requires ReadAs(w, e.doc, k)
    ensures Below(g, w, e) <==>
      UnderBelow(g, w, e, Elements, k.items) || UnderBelow(g, w, e, Fields, k.properties) ||
      UnderBelow(g, w, e, OtherFields, k.additional)
  {
    if Below(g, w, e) {
      var c :| Step(w, e, c) && HoldsOf(g, c);
      BelowIsUnder(g, w, e, k, c);
    }
    UnderIsBelow(g, w, e, Elements, k.items);
    UnderIsBelow(g, w, e, Fields, k.properties);
    UnderIsBelow(g, w, e, OtherFields, k.additional);
  }

  lemma BelowIsUnder(g: Claim, w: Vocabulary, e: Visit, k: Keywords, c: Visit)
    requires ReadAs(w, e.doc, k) && Step(w, e, c) && HoldsOf(g, c)
    ensures UnderBelow(g, w, e, Elements, k.items) || UnderBelow(g, w, e, Fields, k.properties) ||
            UnderBelow(g, w, e, OtherFields, k.additional)
  {
    var i :| 0 <= i < |e.doc.keys| && i < |e.doc.items| &&
      StepBy(e, w.keyword(e.doc.keys[i]), e.doc.items[i], Declared(w, e.doc), c);
    assert BelowBy(g, e, w.keyword(e.doc.keys[i]), e.doc.items[i], Declared(w, e.doc));
  }

  lemma UnderIsBelow(g: Claim, w: Vocabulary, e: Visit, kw: Keyword, o: Option<Json>)
    requires Under(w, e.doc, kw, o)
    ensures UnderBelow(g, w, e, kw, o) ==> Below(g, w, e)
  {
    if UnderBelow(g, w, e, kw, o) {
      var c :| StepBy(e, kw, o.value, Declared(w, e.doc), c) && HoldsOf(g, c);
      var i :| 0 <= i < |e.doc.keys| && w.keyword(e.doc.keys[i]) == kw;
      assert StepBy(e, w.keyword(e.doc.keys[i]), e.doc.items[i], Declared(w, e.doc), c);
      assert Step(w, e, c);
    }
  }

  // ---------------------------------------------------------------- the same level of the schema

  ghost predicate InItems(g: Claim, v: Json, part: Items, at: V.Path) {
    v.Arr? && part.ItemSchema? && exists k: nat :: k < |v.items| && g(v.items[k], part.s, V.InArray(at, k))
  }

  predicate InField(g: Claim, key: string, item: Json, named: Properties, other: Additional, path: V.Path) {
    if named.Properties? && key in named.names then
      var j := IndexOf(named.names, key);
      j < |named.schemas| && g(item, named.schemas[j], path)
    else other.AdditionalSchema? && g(item, other.s, path)
  }

  ghost predicate InFields(g: Claim, v: Json, named: Properties, other: Additional, at: V.Path) {
    v.Obj? && exists k: nat | k < |v.keys| && k < |v.items| ::
      InField(g, v.keys[k], v.items[k], named, other, V.InObject(at, v.keys[k]))
  }

  lemma ElementsAgree(g: Claim, w: Vocabulary, e: Visit, o: Option<Json>, part: Items)
    requires e.doc.Obj? && part == (if o.None? then NoItems else ItemsIn(o.value))
    ensures UnderBelow(g, w, e, Elements, o) <==> InItems(g, e.v, part, e.at)
  {
    if InItems(g, e.v, part, e.at) {
      var k: nat :| k < |e.v.items| && g(e.v.items[k], part.s, V.InArray(e.at, k));
      var c := Visit(e.v.items[k], o.value, V.InArray(e.at, k));
      assert StepBy(e, Elements, o.value, Declared(w, e.doc), c) && HoldsOf(g, c);
    }
  }

  lemma FieldsAgree(
    g: Claim, w: Vocabulary, e: Visit, read: Option<Json>, rest: Option<Json>, named: Properties, other: Additional)
    requires e.doc.Obj? && Under(w, e.doc, Fields, read) && (read.Some? ==> WellFormed(read.value))
    requires named == (if read.None? then NoProperties else PropertiesIn(read.value))
    requires other == (if rest.None? then NoAdditional else AdditionalIn(rest.value))
    ensures UnderBelow(g, w, e, Fields, read) || UnderBelow(g, w, e, OtherFields, rest) <==>
            InFields(g, e.v, named, other, e.at)
  {
    if UnderBelow(g, w, e, Fields, read) {
      NamedStands(g, w, e, read, named, other);
    }
    if UnderBelow(g, w, e, OtherFields, rest) {
      OtherStands(g, w, e, read, rest, named, other);
    }
    if InFields(g, e.v, named, other, e.at) {
      var k: nat :| k < |e.v.keys| && k < |e.v.items| &&
        InField(g, e.v.keys[k], e.v.items[k], named, other, V.InObject(e.at, e.v.keys[k]));
      FieldSteps(g, w, e, read, rest, named, other, k);
    }
  }

  lemma NamedStands(g: Claim, w: Vocabulary, e: Visit, read: Option<Json>, named: Properties, other: Additional)
    requires e.doc.Obj? && UnderBelow(g, w, e, Fields, read) && (read.Some? ==> WellFormed(read.value))
    requires named == (if read.None? then NoProperties else PropertiesIn(read.value))
    ensures InFields(g, e.v, named, other, e.at)
  {
    var d := read.value;
    var c :| StepBy(e, Fields, d, Declared(w, e.doc), c) && HoldsOf(g, c);
    var k, j :| ToField(e, d, c, k, j);
    var i := IndexOf(d.keys, d.keys[j]);
    assert d.keys[j] in d.keys && d.keys[i] == d.keys[j] && i == j;
    assert InField(g, e.v.keys[k], e.v.items[k], named, other, V.InObject(e.at, e.v.keys[k]));
  }

  lemma OtherStands(
    g: Claim, w: Vocabulary, e: Visit, read: Option<Json>, rest: Option<Json>, named: Properties, other: Additional)
    requires e.doc.Obj? && Under(w, e.doc, Fields, read) && UnderBelow(g, w, e, OtherFields, rest)
    requires named == (if read.None? then NoProperties else PropertiesIn(read.value))
    requires other == (if rest.None? then NoAdditional else AdditionalIn(rest.value))
    ensures InFields(g, e.v, named, other, e.at)
  {
    var declared := Declared(w, e.doc);
    var c :| StepBy(e, OtherFields, rest.value, declared, c) && HoldsOf(g, c);
    var k :| 0 <= k < |e.v.keys| && k < |e.v.items| && e.v.keys[k] !in declared &&
      c == Visit(e.v.items[k], rest.value, V.InObject(e.at, e.v.keys[k]));
    DeclaredExactly(w, e.doc, read, e.v.keys[k]);
    assert InField(g, e.v.keys[k], e.v.items[k], named, other, V.InObject(e.at, e.v.keys[k]));
  }

  lemma FieldSteps(
    g: Claim, w: Vocabulary, e: Visit, read: Option<Json>, rest: Option<Json>, named: Properties, other: Additional,
    k: nat)
    requires e.doc.Obj? && Under(w, e.doc, Fields, read) && (read.Some? ==> WellFormed(read.value))
    requires named == (if read.None? then NoProperties else PropertiesIn(read.value))
    requires other == (if rest.None? then NoAdditional else AdditionalIn(rest.value))
    requires e.v.Obj? && k < |e.v.keys| && k < |e.v.items|
    requires InField(g, e.v.keys[k], e.v.items[k], named, other, V.InObject(e.at, e.v.keys[k]))
    ensures UnderBelow(g, w, e, Fields, read) || UnderBelow(g, w, e, OtherFields, rest)
  {
    var key, declared := e.v.keys[k], Declared(w, e.doc);
    DeclaredExactly(w, e.doc, read, key);
    if DeclaredBy(read, key) {
      var j := IndexOf(read.value.keys, key);
      var c := Visit(e.v.items[k], read.value.items[j], V.InObject(e.at, key));
      assert ToField(e, read.value, c, k, j);
      assert StepBy(e, Fields, read.value, declared, c) && HoldsOf(g, c);
    } else {
      var c := Visit(e.v.items[k], rest.value, V.InObject(e.at, key));
      assert StepBy(e, OtherFields, rest.value, declared, c) && HoldsOf(g, c);
    }
  }

  /** One level down, the document and the schema it is read as lead to the same. */
  lemma LevelsAgree(g: Claim, e: Visit)
    requires WellFormed(e.doc) && e.doc.Obj?
    ensures SchemaOf(e.doc).Node?
    ensures var s := SchemaOf(e.doc);
      Below(g, WORDS, e) <==> InItems(g, e.v, s.items, e.at) || InFields(g, e.v, s.properties, s.additional, e.at)
  {
    KeywordsAreRead(e.doc);
    LevelAgrees(g, WORDS, e, KeywordsOf(e.doc), SchemaOf(e.doc));
  }

  lemma LevelAgrees(g: Claim, w: Vocabulary, e: Visit, k: Keywords, s: Schema)
    requires ReadAs(w, e.doc, k) && Parts(e.doc, k) && WellFormedParts(k) && s == NodeOf(e.doc, k)
    ensures s.Node?
    ensures Below(g, w, e) <==>
      InItems(g, e.v, s.items, e.at) || InFields(g, e.v, s.properties, s.additional, e.at)
  {
    NodeParts(e.doc, k);
    BelowByKeyword(g, w, e, k);
    ElementsAgree(g, w, e, k.items, s.items);
    FieldsAgree(g, w, e, k.properties, k.additional, s.properties, s.additional);
  }

  // ---------------------------------------------------------------- everything that is reached

  /** What is reached is as well formed and as readable as what it is reached from. */
  lemma StepKeeps(p: Patterns, e: Visit, c: Visit)
    requires Step(WORDS, e, c) && WellFormed(e.v) && WellFormed(e.doc) && Readable(p, SchemaOf(e.doc))
    ensures WellFormed(c.v) && WellFormed(c.doc) && Readable(p, SchemaOf(c.doc))
  {
    var bad := (v: Json, s: Schema, at: V.Path) => !(WellFormed(v) && Readable(p, s));
    var s := SchemaOf(e.doc);
    LevelsAgree(bad, e);
    PartsAreReadable(p, s);
    NothingBad(p, bad, e.v, s, e.at);
    assert !Below(bad, WORDS, e);
    assert !HoldsOf(bad, c);
  }

  lemma NothingBad(p: Patterns, bad: Claim, v: Json, s: Schema, at: V.Path)
    requires Readable(p, s) && WellFormed(v)
    requires forall v, s, at :: bad(v, s, at) <==> !(WellFormed(v) && Readable(p, s))
    ensures !InItems(bad, v, s.items, at) && !InFields(bad, v, s.properties, s.additional, at)
  {
    PartsAreReadable(p, s);
  }

  ghost predicate Somewhere(w: Vocabulary, e: Visit, hit: Visit -> bool) {
    exists c :: Reaches(w, e, c) && hit(c)
  }

  lemma SomewhereStep(w: Vocabulary, e: Visit, hit: Visit -> bool)
    ensures Somewhere(w, e, hit) <==> hit(e) || exists m :: Step(w, e, m) && Somewhere(w, m, hit)
  {
    if Somewhere(w, e, hit) {
      var c :| Reaches(w, e, c) && hit(c);
      if c != e {
        var m :| Step(w, e, m) && Reaches(w, m, c);
        assert Somewhere(w, m, hit);
      }
    }
    if hit(e) {
      assert Reaches(w, e, e);
    }
    if m :| Step(w, e, m) && Somewhere(w, m, hit) {
      var c :| Reaches(w, m, c) && hit(c);
      assert Reaches(w, e, c);
    }
  }

  /** A claim that holds of a visit exactly when it is hit itself or the claim holds one level below. */
  ghost predicate Recurs(p: Patterns, g: Claim, hit: Visit -> bool) {
    forall e: Visit | WellFormed(e.v) && WellFormed(e.doc) && Readable(p, SchemaOf(e.doc)) ::
      RecursAt(g, hit, e)
  }

  ghost predicate RecursAt(g: Claim, hit: Visit -> bool, e: Visit) {
    HoldsOf(g, e) <==> hit(e) || Below(g, WORDS, e)
  }

  lemma {:induction false} ClaimExactly(p: Patterns, g: Claim, hit: Visit -> bool, e: Visit)
    requires Recurs(p, g, hit) && WellFormed(e.v) && WellFormed(e.doc) && Readable(p, SchemaOf(e.doc))
    ensures HoldsOf(g, e) <==> Somewhere(WORDS, e, hit)
    decreases e.doc
  {
    assert RecursAt(g, hit, e);
    SomewhereStep(WORDS, e, hit);
    forall m | Step(WORDS, e, m) ensures HoldsOf(g, m) <==> Somewhere(WORDS, m, hit) {
      StepKeeps(p, e, m);
      ClaimExactly(p, g, hit, m);
    }
  }

  // ---------------------------------------------------------------- violations

  lemma {:induction false} InGather<T>(part: nat -> seq<T>, n: nat, x: T)
    ensures x in V.Gather(part, n) <==> exists k: nat :: k < n && x in part(k)
  {
    if n > 0 {
      InGather(part, n - 1, x);
    }
  }

  ghost function Broken(p: Patterns, x: V.Violation): Claim {
    (v: Json, s: Schema, at: V.Path) =>
      Interpretable(p, s) && Dictionary(s) && WellFormed(v) && x in V.Violations(p, v, s, at)
  }

  lemma PartsBroken(p: Patterns, v: Json, s: Schema, at: V.Path, x: V.Violation)
    requires Interpretable(p, s) && Dictionary(s) && WellFormed(v)
    ensures x in V.PartsBroken(p, v, s, at) <==>
      || InItems(Broken(p, x), v, s.items, at)
      || InFields(Broken(p, x), v, s.properties, s.additional, at)
  {
    var g := Broken(p, x);
    PartsAreReadable(p, s);
    if v.Arr? && s.items.ItemSchema? {
      ItemsBroken(p, v.items, s.items.s, at, x, V.BrokenInItem(p, v.items, s.items.s, at), g);
    } else if v.Obj? {
      FieldsBroken(p, v.keys, v.items, s, at, x, V.BrokenInField(p, v.keys, v.items, s, at), g);
    }
  }

  lemma ItemsBroken(
    p: Patterns, items: seq<Json>, s: Schema, at: V.Path, x: V.Violation, part: nat -> seq<V.Violation>, g: Claim)
    requires Interpretable(p, s) && Dictionary(s) && V.AllWellFormed(items)
    requires part == V.BrokenInItem(p, items, s, at) && g == Broken(p, x)
    ensures x in V.Gather(part, |items|) <==> exists k: nat :: k < |items| && g(items[k], s, V.InArray(at, k))
  {
    InGather(part, |items|, x);
    forall k: nat | k < |items| ensures x in part(k) <==> g(items[k], s, V.InArray(at, k)) {
    }
  }

  lemma FieldsBroken(
    p: Patterns, keys: seq<string>, items: seq<Json>, s: Schema, at: V.Path, x: V.Violation,
    part: nat -> seq<V.Violation>, g: Claim)
    requires Interpretable(p, s) && Dictionary(s) && |keys| == |items| && V.AllWellFormed(items)
    requires part == V.BrokenInField(p, keys, items, s, at) && g == Broken(p, x)
    ensures x in V.Gather(part, |keys|) <==>
      exists k: nat | k < |keys| && k < |items| ::
        InField(g, keys[k], items[k], s.properties, s.additional, V.InObject(at, keys[k]))
  {
    InGather(part, |keys|, x);
    forall k: nat | k < |keys|
      ensures x in part(k) <==> InField(g, keys[k], items[k], s.properties, s.additional, V.InObject(at, keys[k]))
    {
      FieldBroken(p, keys[k], items[k], s, V.InObject(at, keys[k]), x, g);
    }
  }

  lemma FieldBroken(p: Patterns, key: string, item: Json, s: Schema, path: V.Path, x: V.Violation, g: Claim)
    requires Interpretable(p, s) && Dictionary(s) && WellFormed(item) && g == Broken(p, x)
    ensures x in V.ViolationsInField(p, key, item, s, path) <==> InField(g, key, item, s.properties, s.additional, path)
  {
    PartsAreReadable(p, s);
    if s.properties.Properties? && key in s.properties.names {
      assert Readable(p, s.properties.schemas[IndexOf(s.properties.names, key)]);
    }
  }

  /** Every violation of the value itself stands at its place. */
  lemma OwnPlaces(p: Patterns, v: Json, s: Schema, at: V.Path, x: V.Violation)
    requires Interpretable(p, s) && Dictionary(s) && WellFormed(v) && x in V.OwnBroken(p, v, s, at)
    ensures x.place == at
  {
    if v.Obj? && s.leaf.required.Some? {
      Rules.MissingExactly(v.keys, s.leaf.required.value.items, at, x);
    }
  }

  /** The rule is broken there by the keywords of the subschema that applies there. */
  ghost function Breaks(p: Patterns, x: V.Violation): Visit -> bool {
    (c: Visit) => c.at == x.place && Rules.RuleBroken(p, WORDS, c.v, c.doc, x.rule)
  }

  lemma BrokenRecurs(p: Patterns, x: V.Violation)
    ensures Recurs(p, Broken(p, x), Breaks(p, x))
  {
    forall e: Visit | WellFormed(e.v) && WellFormed(e.doc) && Readable(p, SchemaOf(e.doc))
      ensures RecursAt(Broken(p, x), Breaks(p, x), e)
    {
      BrokenAt(p, x, e, SchemaOf(e.doc));
    }
  }

  lemma BrokenAt(p: Patterns, x: V.Violation, e: Visit, s: Schema)
    requires WellFormed(e.v) && WellFormed(e.doc) && s == SchemaOf(e.doc) && Readable(p, s)
    ensures RecursAt(Broken(p, x), Breaks(p, x), e)
  {
    LevelsAgree(Broken(p, x), e);
    PartsBroken(p, e.v, s, e.at, x);
    OwnReported(p, x, e, s);
  }

  lemma OwnReported(p: Patterns, x: V.Violation, e: Visit, s: Schema)
    requires WellFormed(e.v) && WellFormed(e.doc) && s == SchemaOf(e.doc) && Readable(p, s)
    ensures x in V.OwnBroken(p, e.v, s, e.at) <==> Breaks(p, x)(e)
  {
    Rules.RuleExactly(p, e.v, e.doc, e.at, x.rule);
    if x in V.OwnBroken(p, e.v, s, e.at) {
      OwnPlaces(p, e.v, s, e.at, x);
    }
  }

  /** A violation is reported exactly when the document leads to a value and a subschema whose keyword for that rule
      fails of it, at the place of the violation. */
  lemma ViolationsExactly(p: Patterns, v: Json, doc: Json, x: V.Violation)
    requires WellFormed(v) && WellFormed(doc) && Interpretable(p, SchemaOf(doc)) && Dictionary(SchemaOf(doc))
    ensures x in V.Violations(p, v, SchemaOf(doc), V.Root) <==> Somewhere(WORDS, Visit(v, doc, V.Root), Breaks(p, x))
  {
    BrokenRecurs(p, x);
    ClaimExactly(p, Broken(p, x), Breaks(p, x), Visit(v, doc, V.Root));
  }

  // ---------------------------------------------------------------- fields that are ruled out

  ghost function Listed(path: V.Path): Claim {
    (v: Json, s: Schema, at: V.Path) => path in V.Unlisted(v, s, at)
  }

  /** A field that is not declared, where `additionalProperties` is false. */
  ghost function RulesOut(w: Vocabulary, path: V.Path): Visit -> bool {
    (c: Visit) => c.doc.Obj? && SaysFalse(w, c.doc) && UndeclaredField(path, c.v, Declared(w, c.doc), c.at)
  }

  predicate SaysFalse(w: Vocabulary, doc: Json)
    requires doc.Obj?
  {
    exists i | 0 <= i < |doc.keys| && i < |doc.items| ::
      w.keyword(doc.keys[i]) == OtherFields && doc.items[i] == Bool(false)
  }

  ghost predicate UndeclaredField(path: V.Path, v: Json, declared: iset<string>, at: V.Path) {
    v.Obj? && exists k | 0 <= k < |v.keys| :: v.keys[k] !in declared && path == V.InObject(at, v.keys[k])
  }

  predicate RulesOutIn(path: V.Path, v: Json, named: Properties, other: Additional, at: V.Path) {
    && v.Obj? && other == Allowed(false)
    && exists k | 0 <= k < |v.keys| ::
         !(named.Properties? && v.keys[k] in named.names) && path == V.InObject(at, v.keys[k])
  }

  lemma UnlistedParts(v: Json, s: Schema, at: V.Path, path: V.Path)
    requires s.Node? && WellFormed(v)
    ensures path in V.Unlisted(v, s, at) <==>
      || RulesOutIn(path, v, s.properties, s.additional, at)
      || InItems(Listed(path), v, s.items, at)
      || InFields(Listed(path), v, s.properties, s.additional, at)
  {
    if v.Arr? && s.items.ItemSchema? {
      ItemsUnlisted(v.items, s.items.s, at, path, V.UnlistedInItem(v.items, s.items.s, at), Listed(path));
    } else if v.Obj? {
      FieldsUnlisted(v.keys, v.items, s, at, path, V.UnlistedInField(v.keys, v.items, s, at), Listed(path));
    }
  }

  lemma ItemsUnlisted(
    items: seq<Json>, s: Schema, at: V.Path, path: V.Path, part: nat -> seq<V.Path>, g: Claim)
    requires part == V.UnlistedInItem(items, s, at) && g == Listed(path)
    ensures path in V.Gather(part, |items|) <==> exists k: nat :: k < |items| && g(items[k], s, V.InArray(at, k))
  {
    InGather(part, |items|, path);
    forall k: nat | k < |items| ensures path in part(k) <==> g(items[k], s, V.InArray(at, k)) {
    }
  }

  lemma FieldsUnlisted(
    keys: seq<string>, items: seq<Json>, s: Schema, at: V.Path, path: V.Path, part: nat -> seq<V.Path>, g: Claim)
    requires s.Node? && |keys| == |items| && part == V.UnlistedInField(keys, items, s, at) && g == Listed(path)
    ensures path in V.Gather(part, |keys|) <==>
      || RulesOutIn(path, Obj(keys, items), s.properties, s.additional, at)
      || exists k: nat | k < |keys| && k < |items| ::
           InField(g, keys[k], items[k], s.properties, s.additional, V.InObject(at, keys[k]))
  {
    InGather(part, |keys|, path);
    forall k: nat | k < |keys|
      ensures path in part(k) <==>
        || InField(g, keys[k], items[k], s.properties, s.additional, V.InObject(at, keys[k]))
        || FieldOut(path, keys[k], s.properties, s.additional, at)
    {
    }
  }

  lemma RulesOutRead(w: Vocabulary, path: V.Path, e: Visit, k: Keywords, named: Properties, other: Additional)
    requires ReadAs(w, e.doc, k) && WellFormed(e.v)
    requires named == (if k.properties.None? then NoProperties else PropertiesIn(k.properties.value))
    requires other == (if k.additional.None? then NoAdditional else AdditionalIn(k.additional.value))
    ensures RulesOut(w, path)(e) <==> RulesOutIn(path, e.v, named, other, e.at)
  {
    FalseRead(w, e.doc, k.additional, other);
    UndeclaredRead(w, path, e.v, e.doc, k.properties, named, other, e.at);
  }

  lemma UndeclaredRead(
    w: Vocabulary, path: V.Path, v: Json, doc: Json, read: Option<Json>, named: Properties, other: Additional,
    at: V.Path)
    requires Under(w, doc, Fields, read) && named == (if read.None? then NoProperties else PropertiesIn(read.value))
    ensures RulesOutIn(path, v, named, other, at) <==>
      other == Allowed(false) && UndeclaredField(path, v, Declared(w, doc), at)
  {
    if v.Obj? {
      forall i | 0 <= i < |v.keys|
        ensures v.keys[i] in Declared(w, doc) <==> named.Properties? && v.keys[i] in named.names
      {
        DeclaredExactly(w, doc, read, v.keys[i]);
      }
    }
  }

  lemma FalseRead(w: Vocabulary, doc: Json, o: Option<Json>, other: Additional)
    requires Under(w, doc, OtherFields, o) && other == (if o.None? then NoAdditional else AdditionalIn(o.value))
    ensures other == Allowed(false) <==> SaysFalse(w, doc)
  {
    if other == Allowed(false) {
      var i :| 0 <= i < |doc.keys| && w.keyword(doc.keys[i]) == OtherFields;
      assert doc.items[i] == Bool(false);
    }
  }

  lemma UnlistedAt(path: V.Path, e: Visit)
    requires WellFormed(e.v) && WellFormed(e.doc) && e.doc.Obj?
    ensures RecursAt(Listed(path), RulesOut(WORDS, path), e)
  {
    LevelsAgree(Listed(path), e);
    UnlistedParts(e.v, SchemaOf(e.doc), e.at, path);
    KeywordsAreRead(e.doc);
    UnlistedRead(path, e, KeywordsOf(e.doc), SchemaOf(e.doc));
  }

  lemma UnlistedRead(path: V.Path, e: Visit, k: Keywords, s: Schema)
    requires ReadAs(WORDS, e.doc, k) && WellFormed(e.v) && Parts(e.doc, k) && s == NodeOf(e.doc, k)
    ensures s.Node?
    ensures RulesOut(WORDS, path)(e) <==> RulesOutIn(path, e.v, s.properties, s.additional, e.at)
  {
    NodeParts(e.doc, k);
    RulesOutRead(WORDS, path, e, k, s.properties, s.additional);
  }

  /** A field is reported as unknown exactly when the document leads to an object and a subschema that does not declare
      it and allows no others. */
  lemma UnlistedExactly(p: Patterns, v: Json, doc: Json, path: V.Path)
    requires WellFormed(v) && WellFormed(doc) && Interpretable(p, SchemaOf(doc)) && Dictionary(SchemaOf(doc))
    ensures path in V.Unlisted(v, SchemaOf(doc), V.Root) <==>
            Somewhere(WORDS, Visit(v, doc, V.Root), RulesOut(WORDS, path))
  {
    forall e: Visit | WellFormed(e.v) && WellFormed(e.doc) && Readable(p, SchemaOf(e.doc))
      ensures RecursAt(Listed(path), RulesOut(WORDS, path), e)
    {
      UnlistedAt(path, e);
    }
    ClaimExactly(p, Listed(path), RulesOut(WORDS, path), Visit(v, doc, V.Root));
  }

  predicate FieldOut(path: V.Path, key: string, named: Properties, other: Additional, at: V.Path) {
    other == Allowed(false) && !(named.Properties? && key in named.names) && path == V.InObject(at, key)
  }
}
