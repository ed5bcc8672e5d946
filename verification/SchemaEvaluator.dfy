/** scripts/claim_proof_bundle_checker.py, `_schema_subset_check`, `_schema_accepts` and `_receipt_schema_violations`:
    the evaluator, and the check of a receipt against a schema document. */
module SchemaEvaluator {
  import opened Bytes
  import opened Json
  import opened Schema
  import opened SchemaViolations
  import opened SchemaDocument
  import opened SchemaMeaning

  // ---------------------------------------------------------------- assertions

  method LeafViolations(p: Patterns, v: Json, leaf: Leaf, place: Path) returns (other: seq<Violation>)
    requires LeafOk(p, leaf)
    ensures other == LeafBroken(p, v, leaf, place)
  {
    other := Unless(ConstHolds(v, leaf), Violation(place, NotConst));
    other := other + Unless(EnumHolds(v, leaf), Violation(place, NotInEnum));
    other := other + Unless(TypeHolds(v, leaf), Violation(place, WrongType));
    var more := KindViolations(p, v, leaf, place);
    other := other + more;
  }

  method KindViolations(p: Patterns, v: Json, leaf: Leaf, place: Path) returns (other: seq<Violation>)
    requires LeafOk(p, leaf)
    ensures other == KindBroken(p, v, leaf, place)
  {
    other := [];
    match v {
      case Str(text) =>
        other := TextViolations(p, text, leaf, place);
      case Arr(items) =>
        if leaf.minItems.Some? && |items| < leaf.minItems.value.n {
          other := [Violation(place, TooFewItems)];
        }
      case Obj(keys, _) =>
        if leaf.required.Some? {
          other := MissingNames(keys, leaf.required.value.items, place);
        }
      case _ =>
    }
  }

  method TextViolations(p: Patterns, text: string, leaf: Leaf, place: Path) returns (other: seq<Violation>)
    requires LeafOk(p, leaf)
    ensures other == TextBroken(p, text, leaf, place)
  {
    other := Unless(leaf.minLength.Some? ==> |text| >= leaf.minLength.value.n, Violation(place, TooShort));
    other := other + Unless(leaf.maxLength.Some? ==> |text| <= leaf.maxLength.value.n, Violation(place, TooLong));
    other := other + Unless(leaf.pattern.Some? ==> p.search(leaf.pattern.value.s, text), Violation(place, NoMatch));
  }

  method MissingNames(keys: seq<string>, names: seq<Json>, place: Path) returns (other: seq<Violation>)
    requires forall i :: 0 <= i < |names| ==> names[i].Str?
    ensures other == Missing(keys, names, place)
  {
    other := [];
    assert names[..0] == [];
    for i := 0 to |names|
      invariant other == Missing(keys, names[..i], place)
    {
      assert names[..i + 1][..i] == names[..i];
      if names[i].s !in keys {
        other := other + [Violation(place, Lacks(names[i].s))];
      }
    }
    assert names[..|names|] == names;
  }

  // ---------------------------------------------------------------- the evaluator

  /** Fills both lists exactly; the second stays empty exactly when the value obeys all but the field lists, and both do
      exactly when it is valid. */
  method SubsetCheck(p: Patterns, v: Json, s: Schema, location: Path)
    returns (unknown: seq<Path>, other: seq<Violation>)
    requires Interpretable(p, s) && Dictionary(s) && WellFormed(v)
    ensures unknown == Unlisted(v, s, location) && other == Violations(p, v, s, location)
    ensures other == [] <==> Obeys(p, v, s)
    ensures unknown == [] && other == [] <==> Valid(p, v, s)
  {
    unknown, other := Check(p, v, s, location);
    ObeysExactly(p, v, s, location);
    ValidExactly(p, v, s, location);
  }

  method Check(p: Patterns, v: Json, s: Schema, location: Path) returns (unknown: seq<Path>, other: seq<Violation>)
    requires Interpretable(p, s) && Dictionary(s) && WellFormed(v)
    ensures unknown == Unlisted(v, s, location) && other == Violations(p, v, s, location)
    decreases s, 2
  {
    var own := OwnViolations(p, v, s, location);
    unknown, other := PartsCheck(p, v, s, location);
    other := own + other;
  }

  method OwnViolations(p: Patterns, v: Json, s: Schema, location: Path) returns (other: seq<Violation>)
    requires Interpretable(p, s) && Dictionary(s) && WellFormed(v)
    ensures other == OwnBroken(p, v, s, location)
    decreases s, 1
  {
    var accepted := true;
    if s.anyOf.Alternatives? {
      accepted := AnyAccepts(p, v, s.anyOf.schemas);
    }
    other := LeafViolations(p, v, s.leaf, location);
    other := Unless(accepted, Violation(location, NoAlternative)) + other;
  }

  method PartsCheck(p: Patterns, v: Json, s: Schema, location: Path)
    returns (unknown: seq<Path>, other: seq<Violation>)
    requires Interpretable(p, s) && Dictionary(s) && WellFormed(v)
    ensures unknown == Unlisted(v, s, location) && other == PartsBroken(p, v, s, location)
    decreases s, 1
  {
    unknown, other := [], [];
    if v.Arr? && s.items.ItemSchema? {
      unknown, other := ItemsCheck(p, v.items, s.items.s, location, UnlistedInItem(v.items, s.items.s, location),
                                   BrokenInItem(p, v.items, s.items.s, location));
    } else if v.Obj? {
      unknown, other := FieldsCheck(p, v.keys, v.items, s, location, UnlistedInField(v.keys, v.items, s, location),
                                    BrokenInField(p, v.keys, v.items, s, location));
    }
  }

  method ItemsCheck(
    p: Patterns, items: seq<Json>, s: Schema, location: Path,
    ghost unlisted: nat -> seq<Path>, ghost broken: nat -> seq<Violation>)
    returns (unknown: seq<Path>, other: seq<Violation>)
    requires Interpretable(p, s) && Dictionary(s) && AllWellFormed(items)
    requires unlisted == UnlistedInItem(items, s, location) && broken == BrokenInItem(p, items, s, location)
    ensures unknown == Gather(unlisted, |items|) && other == Gather(broken, |items|)
    decreases s, 4
  {
    unknown, other := [], [];
    for idx := 0 to |items|
      invariant unknown == Gather(unlisted, idx) && other == Gather(broken, idx)
    {
      var u, o := ItemCheck(p, items, s, location, idx, unlisted, broken);
      unknown, other := unknown + u, other + o;
    }
  }

  method ItemCheck(
    p: Patterns, items: seq<Json>, s: Schema, location: Path, idx: nat,
    ghost unlisted: nat -> seq<Path>, ghost broken: nat -> seq<Violation>)
    returns (unknown: seq<Path>, other: seq<Violation>)
    requires Interpretable(p, s) && Dictionary(s) && AllWellFormed(items) && idx < |items|
    requires unlisted == UnlistedInItem(items, s, location) && broken == BrokenInItem(p, items, s, location)
    ensures unknown == unlisted(idx) && other == broken(idx)
    decreases s, 3
  {
    unknown, other := Check(p, items[idx], s, InArray(location, idx));
  }

  method FieldsCheck(
    p: Patterns, keys: seq<string>, items: seq<Json>, s: Schema, location: Path,
    ghost unlisted: nat -> seq<Path>, ghost broken: nat -> seq<Violation>)
    returns (unknown: seq<Path>, other: seq<Violation>)
    requires Interpretable(p, s) && Dictionary(s) && |keys| == |items| && AllWellFormed(items)
    requires unlisted == UnlistedInField(keys, items, s, location)
    requires broken == BrokenInField(p, keys, items, s, location)
    ensures unknown == Gather(unlisted, |keys|) && other == Gather(broken, |keys|)
    decreases s, 0, 2
  {
    unknown, other := [], [];
    for i := 0 to |keys|
      invariant unknown == Gather(unlisted, i) && other == Gather(broken, i)
    {
      var u, o := NextField(p, keys, items, s, location, i, unlisted, broken);
      unknown, other := unknown + u, other + o;
    }
  }

  method NextField(
    p: Patterns, keys: seq<string>, items: seq<Json>, s: Schema, location: Path, i: nat,
    ghost unlisted: nat -> seq<Path>, ghost broken: nat -> seq<Violation>)
    returns (unknown: seq<Path>, other: seq<Violation>)
    requires Interpretable(p, s) && Dictionary(s) && i < |keys| == |items| && AllWellFormed(items)
    requires unlisted == UnlistedInField(keys, items, s, location)
    requires broken == BrokenInField(p, keys, items, s, location)
    ensures unknown == unlisted(i) && other == broken(i)
    decreases s, 0, 1
  {
    unknown, other := FieldCheck(p, keys[i], items[i], s, InObject(location, keys[i]));
  }

  method FieldCheck(p: Patterns, key: string, item: Json, s: Schema, path: Path)
    returns (unknown: seq<Path>, other: seq<Violation>)
    requires Interpretable(p, s) && Dictionary(s) && WellFormed(item)
    ensures unknown == UnlistedField(key, item, s, path) && other == ViolationsInField(p, key, item, s, path)
    decreases s, 0, 0
  {
    unknown, other := [], [];
    if s.properties.Properties? && key in s.properties.names {
      var k := IndexOf(s.properties.names, key);
      unknown, other := Check(p, item, s.properties.schemas[k], path);
    } else if s.additional == Allowed(false) {
      unknown := [path];
    } else if s.additional.AdditionalSchema? {
      unknown, other := Check(p, item, s.additional.s, path);
    }
  }

  method AnyAccepts(p: Patterns, v: Json, alternatives: seq<Schema>) returns (accepted: bool)
    requires forall i :: 0 <= i < |alternatives| ==> Interpretable(p, alternatives[i]) && Dictionary(alternatives[i])
    requires WellFormed(v)
    ensures accepted <==> exists i :: 0 <= i < |alternatives| && Valid(p, v, alternatives[i])
    decreases alternatives, 4
  {
    for i := 0 to |alternatives|
      invariant forall k :: 0 <= k < i ==> !Valid(p, v, alternatives[k])
    {
      var ok := Accepts(p, v, alternatives[i]);
      if ok {
        return true;
      }
    }
    return false;
  }

  method Accepts(p: Patterns, v: Json, s: Schema) returns (accepted: bool)
    requires Interpretable(p, s) && Dictionary(s) && WellFormed(v)
    ensures accepted <==> Valid(p, v, s)
    decreases s, 3
  {
    var unknown, other := Check(p, v, s, Root);
    ObeysExactly(p, v, s, Root);
    ValidExactly(p, v, s, Root);
    return unknown == [] && other == [];
  }

  // ---------------------------------------------------------------- a receipt against a document

  /** With a problem in the schema the value is not looked at; without one the evaluator decides. Nothing at all is
      reported exactly when the document's keywords have the forms that are interpreted and hold of the value. */
  method CheckDocument(p: Patterns, data: Json, doc: Json)
    returns (unknown: seq<Path>, other: seq<Violation>, problems: seq<Problem>)
    requires WellFormed(data) && WellFormed(doc)
    ensures problems == Problems(p, doc)
    ensures problems != [] ==> unknown == [] && other == []
    ensures problems == [] ==> Interpretable(p, SchemaOf(doc)) && Dictionary(SchemaOf(doc))
    ensures problems == [] ==>
      unknown == Unlisted(data, SchemaOf(doc), Root) && other == Violations(p, data, SchemaOf(doc), Root)
    ensures problems == [] <==> Depth(doc) <= MAX_DEPTH && DocOk(p, WORDS, doc)
    ensures problems == [] && unknown == [] && other == [] <==>
            Depth(doc) <= MAX_DEPTH && DocOk(p, WORDS, doc) && DocValid(p, WORDS, data, doc)
  {
    unknown, other := [], [];
    problems := InterpretationProblems(p, doc);
    ReadsDictionaries(doc);
    OkExactly(p, WORDS, doc);
    if problems == [] {
      MeansTheSame(p, WORDS, data, doc);
    }
    if problems == [] {
      unknown, other := SubsetCheck(p, data, SchemaOf(doc), Root);
    }
  }
}
