/** scripts/claim_proof_bundle_checker.py, `_json_equal` and what a schema means. A schema is the tree of its
    keywords, in which every malformed keyword value can be written down. */
module Schema {
  import opened Bytes
  import opened Json

  // ---------------------------------------------------------------- equality

  predicate NumbersEqual(a: Json, b: Json)
    requires (a.Int? || a.Float?) && (b.Int? || b.Float?)
  {
    match (a, b)
    case (Int(m), Int(n)) => m == n
    case (Int(m), Float(f)) => f == Finite(m as real)
    case (Float(f), Int(n)) => f == Finite(n as real)
    case (Float(f), Float(g)) => f == g && !f.NaN?
  }

  /** `_json_equal`: numbers by value, arrays in order, objects by key. */
  predicate JsonEqual(a: Json, b: Json)
    decreases a
  {
    if a.Bool? || b.Bool? || a.Null? || b.Null? then a == b
    else if (a.Int? || a.Float?) && (b.Int? || b.Float?) then NumbersEqual(a, b)
    else if a.Arr? && b.Arr? then
      |a.items| == |b.items| && forall i :: 0 <= i < |a.items| ==> JsonEqual(a.items[i], b.items[i])
    else if a.Obj? && b.Obj? then
      && (forall k :: k in a.keys ==> k in b.keys) && (forall k :: k in b.keys ==> k in a.keys)
      && forall i :: 0 <= i < |a.keys| && i < |a.items| ==>
           var j := IndexOf(b.keys, a.keys[i]); j < |b.items| && JsonEqual(a.items[i], b.items[j])
    else a.Str? && b.Str? && a.s == b.s
  }

  /** No NaN anywhere inside. */
  predicate NaNFree(j: Json) {
    && j != Float(NaN)
    && (Container(j) ==> forall i :: 0 <= i < |j.items| ==> NaNFree(j.items[i]))
  }

  lemma {:induction false} EqualToItself(a: Json)
    requires WellFormed(a)
    ensures JsonEqual(a, a) <==> NaNFree(a)
    decreases a
  {
    if Container(a) {
      forall i | 0 <= i < |a.items| ensures JsonEqual(a.items[i], a.items[i]) <==> NaNFree(a.items[i]) {
        EqualToItself(a.items[i]);
      }
      if a.Obj? {
        forall i | 0 <= i < |a.keys| ensures IndexOf(a.keys, a.keys[i]) == i {
          var j := IndexOf(a.keys, a.keys[i]);
          assert a.keys[j] == a.keys[i];
        }
      }
    }
  }

  lemma {:induction false} EqualIsSymmetric(a: Json, b: Json)
    requires WellFormed(a) && WellFormed(b) && JsonEqual(a, b)
    ensures JsonEqual(b, a)
    decreases a
  {
    if a.Arr? && b.Arr? {
      forall i | 0 <= i < |a.items| ensures JsonEqual(b.items[i], a.items[i]) {
        EqualIsSymmetric(a.items[i], b.items[i]);
      }
    } else if a.Obj? && b.Obj? {
      forall j | 0 <= j < |b.keys|
        ensures var i := IndexOf(a.keys, b.keys[j]); i < |a.items| && JsonEqual(b.items[j], a.items[i])
      {
        assert b.keys[j] in b.keys;
        var i := IndexOf(a.keys, b.keys[j]);
        var back := IndexOf(b.keys, a.keys[i]);
        assert b.keys[back] == b.keys[j];
        EqualIsSymmetric(a.items[i], b.items[back]);
      }
    }
  }

  lemma {:induction false} EqualIsTransitive(a: Json, b: Json, c: Json)
    requires WellFormed(a) && WellFormed(b) && WellFormed(c) && JsonEqual(a, b) && JsonEqual(b, c)
    ensures JsonEqual(a, c)
    decreases a
  {
    if a.Arr? {
      forall i | 0 <= i < |a.items| ensures JsonEqual(a.items[i], c.items[i]) {
        EqualIsTransitive(a.items[i], b.items[i], c.items[i]);
      }
    } else if a.Obj? {
      forall i | 0 <= i < |a.keys|
        ensures var k := IndexOf(c.keys, a.keys[i]); k < |c.items| && JsonEqual(a.items[i], c.items[k])
      {
        var j := IndexOf(b.keys, a.keys[i]);
        assert a.keys[i] in a.keys && a.keys[i] in b.keys && a.keys[i] in c.keys;
        EqualIsTransitive(a.items[i], b.items[j], c.items[IndexOf(c.keys, b.keys[j])]);
      }
    }
  }

  /** What one test adds to a list of complaints. */
  function Unless<T>(ok: bool, complaint: T): seq<T> {
    if ok then [] else [complaint]
  }

  // ---------------------------------------------------------------- schemas

  datatype TypeName = ObjectType | ArrayType | StringType | IntegerType | NumberType | BooleanType | NullType
  datatype TypeRef = Known(name: TypeName) | UnknownType

  /** The keywords that hold no subschema, each as the document has it. */
  datatype Leaf = Leaf(
    unknownKeywords: seq<string>, types: Option<seq<TypeRef>>, const_: Option<Json>, enum_: Option<Json>,
    minLength: Option<Json>, maxLength: Option<Json>, minItems: Option<Json>, pattern: Option<Json>,
    required: Option<Json>)

  datatype Properties = NoProperties | BadProperties | Properties(names: seq<string>, schemas: seq<Schema>)
  datatype Additional = NoAdditional | BadAdditional | Allowed(b: bool) | AdditionalSchema(s: Schema)
  datatype Items = NoItems | BadItems | ItemSchema(s: Schema)
  datatype AnyOf = NoAnyOf | BadAnyOf | Alternatives(schemas: seq<Schema>)

  datatype Schema =
    | NotAnObject
    | Node(leaf: Leaf, properties: Properties, additional: Additional, items: Items, anyOf: AnyOf)

  /** The regular-expression library: which patterns translate exactly, and what they match. */
  datatype Patterns = Patterns(translates: string -> bool, search: (string, string) -> bool)

  predicate TypesOk(names: seq<TypeRef>) {
    && names != []
    && (forall i :: 0 <= i < |names| ==> names[i].Known?)
    && forall i, j :: 0 <= i < j < |names| ==> names[i] != names[j]
  }

  predicate Natural(j: Json) {
    j.Int? && j.n >= 0
  }

  predicate NameList(j: Json) {
    j.Arr? && forall i :: 0 <= i < |j.items| ==> j.items[i].Str?
  }

  predicate LeafOk(p: Patterns, leaf: Leaf) {
    && leaf.unknownKeywords == []
    && (leaf.types.Some? ==> TypesOk(leaf.types.value))
    && (leaf.enum_.Some? ==> leaf.enum_.value.Arr? && leaf.enum_.value.items != [])
    && (leaf.minLength.Some? ==> Natural(leaf.minLength.value))
    && (leaf.maxLength.Some? ==> Natural(leaf.maxLength.value))
    && (leaf.minItems.Some? ==> Natural(leaf.minItems.value))
    && (leaf.pattern.Some? ==> leaf.pattern.value.Str? && p.translates(leaf.pattern.value.s))
    && (leaf.required.Some? ==> NameList(leaf.required.value))
  }

  /** Properties is a dictionary: one schema for each of its distinct names. */
  predicate Dictionary(s: Schema) {
    s.Node? ==>
      && (s.properties.Properties? ==>
            && |s.properties.names| == |s.properties.schemas| && Distinct(s.properties.names)
            && forall i :: 0 <= i < |s.properties.schemas| ==> Dictionary(s.properties.schemas[i]))
      && (s.additional.AdditionalSchema? ==> Dictionary(s.additional.s))
      && (s.items.ItemSchema? ==> Dictionary(s.items.s))
      && (s.anyOf.Alternatives? ==> forall i :: 0 <= i < |s.anyOf.schemas| ==> Dictionary(s.anyOf.schemas[i]))
  }

  /** Every form in the schema is one the evaluator implements. */
  predicate Interpretable(p: Patterns, s: Schema) {
    && s.Node? && LeafOk(p, s.leaf)
    && !s.properties.BadProperties? && !s.additional.BadAdditional? && !s.items.BadItems? && !s.anyOf.BadAnyOf?
    && (s.properties.Properties? ==>
          forall i :: 0 <= i < |s.properties.schemas| ==> Interpretable(p, s.properties.schemas[i]))
    && (s.additional.AdditionalSchema? ==> Interpretable(p, s.additional.s))
    && (s.items.ItemSchema? ==> Interpretable(p, s.items.s))
    && (s.anyOf.Alternatives? ==>
          && s.anyOf.schemas != []
          && forall i :: 0 <= i < |s.anyOf.schemas| ==> Interpretable(p, s.anyOf.schemas[i]))
  }

  // ---------------------------------------------------------------- what a schema means

  predicate HasType(v: Json, t: TypeName) {
    match t
    case ObjectType => v.Obj?
    case ArrayType => v.Arr?
    case StringType => v.Str?
    case IntegerType => v.Int? || (v.Float? && v.f.Finite? && v.f.r == v.f.r.Floor as real)
    case NumberType => v.Int? || v.Float?
    case BooleanType => v.Bool?
    case NullType => v.Null?
  }

  /** The assertions that look at the value alone. */
  predicate LeafHolds(p: Patterns, v: Json, leaf: Leaf)
    requires LeafOk(p, leaf)
  {
    && (leaf.const_.Some? ==> JsonEqual(v, leaf.const_.value))
    && (leaf.enum_.Some? ==>
          exists i :: 0 <= i < |leaf.enum_.value.items| && JsonEqual(v, leaf.enum_.value.items[i]))
    && (leaf.types.Some? ==>
          exists i :: 0 <= i < |leaf.types.value| && HasType(v, leaf.types.value[i].name))
    && (v.Str? ==>
          && (leaf.minLength.Some? ==> |v.s| >= leaf.minLength.value.n)
          && (leaf.maxLength.Some? ==> |v.s| <= leaf.maxLength.value.n)
          && (leaf.pattern.Some? ==> p.search(leaf.pattern.value.s, v.s)))
    && (v.Arr? && leaf.minItems.Some? ==> |v.items| >= leaf.minItems.value.n)
    && (v.Obj? && leaf.required.Some? ==>
          forall i :: 0 <= i < |leaf.required.value.items| ==> leaf.required.value.items[i].s in v.keys)
  }

  /** Validity of a value, read off the keywords: the applicators of JSON Schema Core 2020-12,
      sections 10.2 and 10.3, and the assertions above. */
  ghost predicate Valid(p: Patterns, v: Json, s: Schema)
    requires Interpretable(p, s) && Dictionary(s) && WellFormed(v)
    decreases s
  {
    && LeafHolds(p, v, s.leaf)
    && (s.anyOf.Alternatives? ==> exists i :: 0 <= i < |s.anyOf.schemas| && Valid(p, v, s.anyOf.schemas[i]))
    && (v.Arr? && s.items.ItemSchema? ==> forall i :: 0 <= i < |v.items| ==> Valid(p, v.items[i], s.items.s))
    && (v.Obj? ==> forall i :: 0 <= i < |v.keys| ==> FieldValid(p, v.keys[i], v.items[i], s))
  }

  /** One field of an object: its named schema, or what the schema says of other names. */
  ghost predicate FieldValid(p: Patterns, key: string, item: Json, s: Schema)
    requires Interpretable(p, s) && Dictionary(s) && WellFormed(item)
    decreases s, 0
  {
    if s.properties.Properties? && key in s.properties.names then
      Valid(p, item, s.properties.schemas[IndexOf(s.properties.names, key)])
    else if s.additional.Allowed? then s.additional.b
    else if s.additional.AdditionalSchema? then Valid(p, item, s.additional.s)
    else true
  }
}
