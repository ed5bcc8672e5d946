/** The two lists that the evaluator fills, as functions of the value and the schema, and what it means that they stay
    empty. */
module SchemaViolations {
  import opened Bytes
  import opened Json
  import opened Schema

  /** What the first `n` parts of a container add up to. */
  function Gather<T>(part: nat -> seq<T>, n: nat): seq<T> {
    if n == 0 then [] else Gather(part, n - 1) + part(n - 1)
  }

  lemma {:induction false} GathersNothing<T>(part: nat -> seq<T>, n: nat)
    ensures Gather(part, n) == [] <==> forall k: nat :: k < n ==> part(k) == []
  {
    if n > 0 {
      GathersNothing(part, n - 1);
    }
  }

  /** What holds of each part holds of all of them. */
  lemma AllTogether<T>(part: nat -> seq<T>, whole: nat -> bool, rest: nat -> bool, n: nat)
    requires forall k: nat :: k < n ==> (whole(k) <==> rest(k) && part(k) == [])
    ensures (forall k: nat :: k < n ==> whole(k)) <==> (forall k: nat :: k < n ==> rest(k)) && Gather(part, n) == []
  {
    GathersNothing(part, n);
  }

  // ---------------------------------------------------------------- fields that are ruled out

  /** Validity but for the fields that `additionalProperties: false` rules out. */
  ghost predicate Obeys(p: Patterns, v: Json, s: Schema)
    requires Interpretable(p, s) && Dictionary(s) && WellFormed(v)
    decreases s
  {
    && LeafHolds(p, v, s.leaf)
    && (s.anyOf.Alternatives? ==> exists i :: 0 <= i < |s.anyOf.schemas| && Valid(p, v, s.anyOf.schemas[i]))
    && (v.Arr? && s.items.ItemSchema? ==> forall i :: 0 <= i < |v.items| ==> Obeys(p, v.items[i], s.items.s))
    && (v.Obj? ==> forall i :: 0 <= i < |v.keys| ==> FieldObeys(p, v.keys[i], v.items[i], s))
  }

  ghost predicate FieldObeys(p: Patterns, key: string, item: Json, s: Schema)
    requires Interpretable(p, s) && Dictionary(s) && WellFormed(item)
    decreases s, 0
  {
    if s.properties.Properties? && key in s.properties.names then
      Obeys(p, item, s.properties.schemas[IndexOf(s.properties.names, key)])
    else s.additional.AdditionalSchema? ==> Obeys(p, item, s.additional.s)
  }

  predicate AllWellFormed(items: seq<Json>) {
    forall i :: 0 <= i < |items| ==> WellFormed(items[i])
  }

  /** Where a value is found. */
  datatype Path = Root | InArray(of: Path, index: nat) | InObject(of: Path, key: string)

  /** The path as it is reported. */
  function Shown(path: Path): string {
    match path
    case Root => ""
    case InArray(of, i) => Shown(of) + "[" + Decimal(i) + "]"
    case InObject(of, key) => if Shown(of) == "" then key else Shown(of) + "." + key
  }

  /** The paths of the fields that are ruled out, in document order. */
  function Unlisted(v: Json, s: Schema, location: Path): seq<Path>
    decreases s, 1, 0
  {
    if s.NotAnObject? then []
    else if v.Arr? && s.items.ItemSchema? then Gather(UnlistedInItem(v.items, s.items.s, location), |v.items|)
    else if v.Obj? then Gather(UnlistedInField(v.keys, v.items, s, location), |v.keys|)
    else []
  }

  function UnlistedInItem(items: seq<Json>, s: Schema, location: Path): nat -> seq<Path>
    decreases s, 2
  {
    (k: nat) => if k < |items| then Unlisted(items[k], s, InArray(location, k)) else []
  }

  function UnlistedInField(keys: seq<string>, items: seq<Json>, s: Schema, location: Path): nat -> seq<Path>
    requires s.Node?
    decreases s, 0, 1
  {
    (k: nat) =>
      if k < |keys| && k < |items| then UnlistedField(keys[k], items[k], s, InObject(location, keys[k])) else []
  }

  function UnlistedField(key: string, item: Json, s: Schema, path: Path): seq<Path>
    requires s.Node?
    decreases s, 0, 0
  {
    if s.properties.Properties? && key in s.properties.names then
      var k := IndexOf(s.properties.names, key);
      if k < |s.properties.schemas| then Unlisted(item, s.properties.schemas[k], path) else []
    else if s.additional == Allowed(false) then [path]
    else if s.additional.AdditionalSchema? then Unlisted(item, s.additional.s, path)
    else []
  }

  /** A value is valid exactly when it obeys the schema and no field is ruled out. */
  lemma {:induction false} ValidExactly(p: Patterns, v: Json, s: Schema, location: Path)
    requires Interpretable(p, s) && Dictionary(s) && WellFormed(v)
    ensures Valid(p, v, s) <==> Obeys(p, v, s) && Unlisted(v, s, location) == []
    decreases s, 1
  {
    if v.Arr? && s.items.ItemSchema? {
      ItemsExactly(p, v.items, s.items.s, location);
    } else if v.Obj? {
      FieldsExactly(p, v.keys, v.items, s, location);
    }
  }

  lemma {:induction false} ItemsExactly(p: Patterns, items: seq<Json>, s: Schema, location: Path)
    requires Interpretable(p, s) && Dictionary(s) && forall k :: 0 <= k < |items| ==> WellFormed(items[k])
    ensures (forall k :: 0 <= k < |items| ==> Valid(p, items[k], s)) <==>
            (forall k :: 0 <= k < |items| ==> Obeys(p, items[k], s)) &&
            Gather(UnlistedInItem(items, s, location), |items|) == []
    decreases s, 2
  {
    var part := UnlistedInItem(items, s, location);
    forall k: nat | k < |items| ensures Valid(p, items[k], s) <==> Obeys(p, items[k], s) && part(k) == [] {
      ValidExactly(p, items[k], s, InArray(location, k));
    }
    AllTogether(part, (k: nat) => k < |items| ==> Valid(p, items[k], s),
                (k: nat) => k < |items| ==> Obeys(p, items[k], s), |items|);
  }

  ghost function ValidAt(p: Patterns, keys: seq<string>, items: seq<Json>, s: Schema): nat -> bool
    requires Interpretable(p, s) && Dictionary(s) && |keys| == |items| && AllWellFormed(items)
  {
    (k: nat) => k < |keys| ==> FieldValid(p, keys[k], items[k], s)
  }

  ghost function ObeysAt(p: Patterns, keys: seq<string>, items: seq<Json>, s: Schema): nat -> bool
    requires Interpretable(p, s) && Dictionary(s) && |keys| == |items| && AllWellFormed(items)
  {
    (k: nat) => k < |keys| ==> FieldObeys(p, keys[k], items[k], s)
  }

  lemma {:induction false} FieldsExactly(p: Patterns, keys: seq<string>, items: seq<Json>, s: Schema, location: Path)
    requires Interpretable(p, s) && Dictionary(s) && |keys| == |items| && AllWellFormed(items)
    ensures (forall k :: 0 <= k < |keys| ==> FieldValid(p, keys[k], items[k], s)) <==>
            (forall k :: 0 <= k < |keys| ==> FieldObeys(p, keys[k], items[k], s)) &&
            Gather(UnlistedInField(keys, items, s, location), |keys|) == []
    decreases s, 0, 3
  {
    var whole, rest := ValidAt(p, keys, items, s), ObeysAt(p, keys, items, s);
    FieldsTogether(p, keys, items, s, location, UnlistedInField(keys, items, s, location), whole, rest);
    assert forall k: nat :: k < |keys| ==> (whole(k) <==> FieldValid(p, keys[k], items[k], s));
    assert forall k: nat :: k < |keys| ==> (rest(k) <==> FieldObeys(p, keys[k], items[k], s));
  }

  lemma {:induction false} FieldsTogether(
    p: Patterns, keys: seq<string>, items: seq<Json>, s: Schema, location: Path,
    part: nat -> seq<Path>, whole: nat -> bool, rest: nat -> bool)
    requires Interpretable(p, s) && Dictionary(s) && |keys| == |items| && AllWellFormed(items)
    requires part == UnlistedInField(keys, items, s, location)
    requires whole == ValidAt(p, keys, items, s) && rest == ObeysAt(p, keys, items, s)
    ensures (forall k: nat :: k < |keys| ==> whole(k)) <==>
            (forall k: nat :: k < |keys| ==> rest(k)) && Gather(UnlistedInField(keys, items, s, location), |keys|) == []
    decreases s, 0, 2
  {
    forall k: nat | k < |keys| ensures whole(k) <==> rest(k) && part(k) == [] {
      OneFieldExactly(p, keys, items, s, location, k);
    }
    AllTogether(part, whole, rest, |keys|);
  }

  lemma {:induction false} OneFieldExactly(
    p: Patterns, keys: seq<string>, items: seq<Json>, s: Schema, location: Path, k: nat)
    requires Interpretable(p, s) && Dictionary(s) && k < |keys| == |items| && WellFormed(items[k])
    ensures FieldValid(p, keys[k], items[k], s) <==>
            FieldObeys(p, keys[k], items[k], s) && UnlistedInField(keys, items, s, location)(k) == []
    decreases s, 0, 1
  {
    FieldExactly(p, keys[k], items[k], s, InObject(location, keys[k]));
  }

  lemma {:induction false} FieldExactly(p: Patterns, key: string, item: Json, s: Schema, path: Path)
    requires Interpretable(p, s) && Dictionary(s) && WellFormed(item)
    ensures FieldValid(p, key, item, s) <==> FieldObeys(p, key, item, s) && UnlistedField(key, item, s, path) == []
    decreases s, 0, 0
  {
    if s.properties.Properties? && key in s.properties.names {
      ValidExactly(p, item, s.properties.schemas[IndexOf(s.properties.names, key)], path);
    } else if s.additional.AdditionalSchema? {
      ValidExactly(p, item, s.additional.s, path);
    }
  }

  // ---------------------------------------------------------------- everything else

  datatype Rule =
    | NoAlternative | NotConst | NotInEnum | WrongType | TooShort | TooLong | NoMatch | TooFewItems
    | Lacks(name: string)

  datatype Violation = Violation(place: Path, rule: Rule)

  /** The place of a violation, as it is reported. */
  function Label(path: Path): string {
    if Shown(path) == "" then "root" else Shown(path)
  }

  predicate ConstHolds(v: Json, leaf: Leaf) {
    leaf.const_.Some? ==> JsonEqual(v, leaf.const_.value)
  }

  predicate EnumHolds(v: Json, leaf: Leaf) {
    leaf.enum_.Some? && leaf.enum_.value.Arr? ==>
      exists i :: 0 <= i < |leaf.enum_.value.items| && JsonEqual(v, leaf.enum_.value.items[i])
  }

  predicate TypeHolds(v: Json, leaf: Leaf) {
    leaf.types.Some? ==> exists t :: t in leaf.types.value && t.Known? && HasType(v, t.name)
  }

  /** The assertions a value breaks, in the order of the tests. */
  function LeafBroken(p: Patterns, v: Json, leaf: Leaf, place: Path): seq<Violation>
    requires LeafOk(p, leaf)
  {
    Unless(ConstHolds(v, leaf), Violation(place, NotConst)) + Unless(EnumHolds(v, leaf), Violation(place, NotInEnum)) +
    Unless(TypeHolds(v, leaf), Violation(place, WrongType)) + KindBroken(p, v, leaf, place)
  }

  function KindBroken(p: Patterns, v: Json, leaf: Leaf, place: Path): seq<Violation>
    requires LeafOk(p, leaf)
  {
    match v
    case Str(text) => TextBroken(p, text, leaf, place)
    case Arr(items) => Unless(leaf.minItems.Some? ==> |items| >= leaf.minItems.value.n, Violation(place, TooFewItems))
    case Obj(keys, _) => if leaf.required.Some? then Missing(keys, leaf.required.value.items, place) else []
    case _ => []
  }

  function TextBroken(p: Patterns, text: string, leaf: Leaf, place: Path): seq<Violation>
    requires LeafOk(p, leaf)
  {
    Unless(leaf.minLength.Some? ==> |text| >= leaf.minLength.value.n, Violation(place, TooShort)) +
    Unless(leaf.maxLength.Some? ==> |text| <= leaf.maxLength.value.n, Violation(place, TooLong)) +
    Unless(leaf.pattern.Some? ==> p.search(leaf.pattern.value.s, text), Violation(place, NoMatch))
  }

  function Missing(keys: seq<string>, names: seq<Json>, place: Path): seq<Violation> {
    if names == [] then []
    else
      var last := names[|names| - 1];
      Missing(keys, names[..|names| - 1], place) +
      if last.Str? && last.s !in keys then [Violation(place, Lacks(last.s))] else []
  }

  lemma {:induction false} NothingMissing(keys: seq<string>, names: seq<Json>, place: Path)
    requires forall i :: 0 <= i < |names| ==> names[i].Str?
    ensures Missing(keys, names, place) == [] <==> forall i :: 0 <= i < |names| ==> names[i].s in keys
    decreases |names|
  {
    if names != [] {
      NothingMissing(keys, names[..|names| - 1], place);
    }
  }

  lemma LeafExactly(p: Patterns, v: Json, leaf: Leaf, place: Path)
    requires LeafOk(p, leaf)
    ensures LeafBroken(p, v, leaf, place) == [] <==> LeafHolds(p, v, leaf)
  {
    KindExactly(p, v, leaf, place);
    if leaf.types.Some? {
      TypesHold(v, leaf.types.value);
    }
  }

  lemma TypesHold(v: Json, types: seq<TypeRef>)
    requires TypesOk(types)
    ensures (exists t :: t in types && t.Known? && HasType(v, t.name)) <==>
            exists i :: 0 <= i < |types| && HasType(v, types[i].name)
  {
    if i :| 0 <= i < |types| && HasType(v, types[i].name) {
      assert types[i] in types;
    }
  }

  lemma KindExactly(p: Patterns, v: Json, leaf: Leaf, place: Path)
    requires LeafOk(p, leaf)
    ensures KindBroken(p, v, leaf, place) == [] <==>
      && (v.Str? ==>
            && (leaf.minLength.Some? ==> |v.s| >= leaf.minLength.value.n)
            && (leaf.maxLength.Some? ==> |v.s| <= leaf.maxLength.value.n)
            && (leaf.pattern.Some? ==> p.search(leaf.pattern.value.s, v.s)))
      && (v.Arr? && leaf.minItems.Some? ==> |v.items| >= leaf.minItems.value.n)
      && (v.Obj? && leaf.required.Some? ==>
            forall i :: 0 <= i < |leaf.required.value.items| ==> leaf.required.value.items[i].s in v.keys)
  {
    if v.Obj? && leaf.required.Some? {
      NothingMissing(v.keys, leaf.required.value.items, place);
    }
  }

  ghost predicate AnyOfHolds(p: Patterns, v: Json, s: Schema)
    requires Interpretable(p, s) && Dictionary(s) && WellFormed(v)
  {
    s.anyOf.Alternatives? ==> exists i :: 0 <= i < |s.anyOf.schemas| && Valid(p, v, s.anyOf.schemas[i])
  }

  /** All violations but the ruled-out fields: of the value itself, then of its parts in document order. */
  ghost function Violations(p: Patterns, v: Json, s: Schema, location: Path): seq<Violation>
    requires Interpretable(p, s) && Dictionary(s) && WellFormed(v)
    decreases s, 1, 1
  {
    OwnBroken(p, v, s, location) + PartsBroken(p, v, s, location)
  }

  ghost function OwnBroken(p: Patterns, v: Json, s: Schema, location: Path): seq<Violation>
    requires Interpretable(p, s) && Dictionary(s) && WellFormed(v)
  {
    Unless(AnyOfHolds(p, v, s), Violation(location, NoAlternative)) + LeafBroken(p, v, s.leaf, location)
  }

  ghost function PartsBroken(p: Patterns, v: Json, s: Schema, location: Path): seq<Violation>
    requires Interpretable(p, s) && Dictionary(s) && WellFormed(v)
    decreases s, 1, 0
  {
    if v.Arr? && s.items.ItemSchema? then Gather(BrokenInItem(p, v.items, s.items.s, location), |v.items|)
    else if v.Obj? then Gather(BrokenInField(p, v.keys, v.items, s, location), |v.keys|)
    else []
  }

  ghost function BrokenInItem(p: Patterns, items: seq<Json>, s: Schema, location: Path): nat -> seq<Violation>
    requires Interpretable(p, s) && Dictionary(s) && AllWellFormed(items)
    decreases s, 2
  {
    (k: nat) => if k < |items| then Violations(p, items[k], s, InArray(location, k)) else []
  }

  ghost function BrokenInField(
    p: Patterns, keys: seq<string>, items: seq<Json>, s: Schema, location: Path): nat -> seq<Violation>
    requires Interpretable(p, s) && Dictionary(s) && AllWellFormed(items) && |items| == |keys|
    decreases s, 0, 1
  {
    (k: nat) => if k < |keys| then ViolationsInField(p, keys[k], items[k], s, InObject(location, keys[k])) else []
  }

  ghost function ViolationsInField(p: Patterns, key: string, item: Json, s: Schema, path: Path): seq<Violation>
    requires Interpretable(p, s) && Dictionary(s) && WellFormed(item)
    decreases s, 0, 0
  {
    if s.properties.Properties? && key in s.properties.names then
      Violations(p, item, s.properties.schemas[IndexOf(s.properties.names, key)], path)
    else if s.additional.AdditionalSchema? then Violations(p, item, s.additional.s, path)
    else []
  }

  // ---------------------------------------------------------------- what an empty list means

  /** Nothing is broken exactly when the value obeys the schema. */
  lemma {:induction false} ObeysExactly(p: Patterns, v: Json, s: Schema, location: Path)
    requires Interpretable(p, s) && Dictionary(s) && WellFormed(v)
    ensures Violations(p, v, s, location) == [] <==> Obeys(p, v, s)
    decreases s, 1, 1
  {
    OwnObeys(p, v, s, location);
    PartsObey(p, v, s, location);
    var own, parts := OwnBroken(p, v, s, location), PartsBroken(p, v, s, location);
    assert own + parts == [] <==> own == [] && parts == [];
  }

  ghost predicate PartsFine(p: Patterns, v: Json, s: Schema)
    requires Interpretable(p, s) && Dictionary(s) && WellFormed(v)
  {
    && (v.Arr? && s.items.ItemSchema? ==> forall i :: 0 <= i < |v.items| ==> Obeys(p, v.items[i], s.items.s))
    && (v.Obj? ==> forall i :: 0 <= i < |v.keys| ==> FieldObeys(p, v.keys[i], v.items[i], s))
  }

  lemma OwnObeys(p: Patterns, v: Json, s: Schema, location: Path)
    requires Interpretable(p, s) && Dictionary(s) && WellFormed(v)
    ensures OwnBroken(p, v, s, location) == [] <==> AnyOfHolds(p, v, s) && LeafHolds(p, v, s.leaf)
  {
    LeafExactly(p, v, s.leaf, location);
  }

  lemma {:induction false} PartsObey(p: Patterns, v: Json, s: Schema, location: Path)
    requires Interpretable(p, s) && Dictionary(s) && WellFormed(v)
    ensures PartsBroken(p, v, s, location) == [] <==> PartsFine(p, v, s)
    decreases s, 1, 0
  {
    if v.Arr? && s.items.ItemSchema? {
      ItemsObey(p, v.items, s.items.s, location, BrokenInItem(p, v.items, s.items.s, location));
    } else if v.Obj? {
      FieldsObey(p, v.keys, v.items, s, location, BrokenInField(p, v.keys, v.items, s, location));
    }
  }

  lemma {:induction false} ItemsObey(
    p: Patterns, items: seq<Json>, s: Schema, location: Path, part: nat -> seq<Violation>)
    requires Interpretable(p, s) && Dictionary(s) && AllWellFormed(items)
    requires part == BrokenInItem(p, items, s, location)
    ensures Gather(part, |items|) == [] <==>
            forall k :: 0 <= k < |items| ==> Obeys(p, items[k], s)
    decreases s, 2, 0
  {
    forall k: nat | k < |items| ensures part(k) == [] <==> Obeys(p, items[k], s) {
      ObeysExactly(p, items[k], s, InArray(location, k));
    }
    AllTogether(part, (k: nat) => k < |items| ==> Obeys(p, items[k], s), (k: nat) => true, |items|);
  }

  lemma {:induction false} FieldsObey(
    p: Patterns, keys: seq<string>, items: seq<Json>, s: Schema, location: Path, part: nat -> seq<Violation>)
    requires Interpretable(p, s) && Dictionary(s) && AllWellFormed(items) && |items| == |keys|
    requires part == BrokenInField(p, keys, items, s, location)
    ensures Gather(part, |keys|) == [] <==>
            forall k :: 0 <= k < |keys| ==> FieldObeys(p, keys[k], items[k], s)
    decreases s, 0, 2
  {
    GathersNothing(part, |keys|);
    forall k: nat | k < |keys| ensures part(k) == [] <==> FieldObeys(p, keys[k], items[k], s) {
      FieldObeysExactly(p, keys[k], items[k], s, InObject(location, keys[k]));
    }
  }

  lemma {:induction false} FieldObeysExactly(p: Patterns, key: string, item: Json, s: Schema, path: Path)
    requires Interpretable(p, s) && Dictionary(s) && WellFormed(item)
    ensures ViolationsInField(p, key, item, s, path) == [] <==> FieldObeys(p, key, item, s)
    decreases s, 0, 1
  {
    if s.properties.Properties? && key in s.properties.names {
      ObeysExactly(p, item, s.properties.schemas[IndexOf(s.properties.names, key)], path);
    } else if s.additional.AdditionalSchema? {
      ObeysExactly(p, item, s.additional.s, path);
    }
  }
}
