/** scripts/claim_proof_bundle_checker.py, `_schema_interpretation_problems`: a decoded document read as a schema,
    and the walk over it that must find nothing before the evaluator may run. */
module SchemaDocument {
  import opened Bytes
  import opened Json
  import opened Schema
  import Worklist

  const MAX_DEPTH := 128

  // ---------------------------------------------------------------- the keywords of a document

  /** `schema.get(key)` */
  function At(doc: Json, key: string): (r: Option<Json>)
    ensures r.Some? ==> (doc decreases to r.value)
    ensures r.Some? && WellFormed(doc) ==> WellFormed(r.value)
  {
    if !doc.Obj? then None
    else
      var k := IndexOf(doc.keys, key);
      if k < |doc.keys| && k < |doc.items| then Some(doc.items[k]) else None
  }

  const KEYWORDS: set<string> := {
    "$schema", "$id", "title", "description", "type", "const", "enum", "pattern", "minLength", "maxLength",
    "minItems", "items", "required", "properties", "additionalProperties", "anyOf"
  }

  /** The keys that are none of the keywords. */
  function Unknown(keys: seq<string>, known: set<string>): seq<string> {
    if keys == [] then []
    else Unknown(keys[..|keys| - 1], known) + if keys[|keys| - 1] in known then [] else [keys[|keys| - 1]]
  }

  function TypeOf(name: Json): TypeRef {
    if name == Str("object") then Known(ObjectType)
    else if name == Str("array") then Known(ArrayType)
    else if name == Str("string") then Known(StringType)
    else if name == Str("integer") then Known(IntegerType)
    else if name == Str("number") then Known(NumberType)
    else if name == Str("boolean") then Known(BooleanType)
    else if name == Str("null") then Known(NullType)
    else UnknownType
  }

  /** `type` holds one name or a list of them. */
  function Names(declared: Json): seq<Json> {
    if declared.Arr? then declared.items else [declared]
  }

  function TypesOf(declared: Json): seq<TypeRef> {
    seq(|Names(declared)|, i requires 0 <= i < |Names(declared)| => TypeOf(Names(declared)[i]))
  }

  /** What a document has under each keyword; the annotations are not looked at. */
  datatype Keywords = Keywords(
    unknown: seq<string>, declared: Option<Json>, const_: Option<Json>, enum_: Option<Json>, minLength: Option<Json>,
    maxLength: Option<Json>, minItems: Option<Json>, pattern: Option<Json>, required: Option<Json>,
    properties: Option<Json>, additional: Option<Json>, items: Option<Json>, anyOf: Option<Json>)

  function KeywordsOf(doc: Json): (k: Keywords)
    requires doc.Obj?
    ensures Parts(doc, k) && (WellFormed(doc) ==> WellFormedParts(k))
  {
    Keywords(Unknown(doc.keys, KEYWORDS), At(doc, "type"), At(doc, "const"), At(doc, "enum"), At(doc, "minLength"),
             At(doc, "maxLength"), At(doc, "minItems"), At(doc, "pattern"), At(doc, "required"),
             At(doc, "properties"), At(doc, "additionalProperties"), At(doc, "items"), At(doc, "anyOf"))
  }

  /** The values that may hold subschemas are parts of the document. */
  ghost predicate Parts(doc: Json, k: Keywords) {
    && (k.properties.Some? ==> (doc decreases to k.properties.value))
    && (k.additional.Some? ==> (doc decreases to k.additional.value))
    && (k.items.Some? ==> (doc decreases to k.items.value))
    && (k.anyOf.Some? ==> (doc decreases to k.anyOf.value))
  }

  predicate WellFormedParts(k: Keywords) {
    && (k.properties.Some? ==> WellFormed(k.properties.value))
    && (k.additional.Some? ==> WellFormed(k.additional.value))
    && (k.items.Some? ==> WellFormed(k.items.value))
    && (k.anyOf.Some? ==> WellFormed(k.anyOf.value))
  }

  // ---------------------------------------------------------------- the document as a schema

  function SchemaOf(doc: Json): Schema
    decreases doc, 2
  {
    if doc.Obj? then NodeOf(doc, KeywordsOf(doc)) else NotAnObject
  }

  function NodeOf(doc: Json, k: Keywords): Schema
    requires Parts(doc, k)
    decreases doc, 1
  {
    Node(LeafOf(k),
         if k.properties.None? then NoProperties else PropertiesIn(k.properties.value),
         if k.additional.None? then NoAdditional else AdditionalIn(k.additional.value),
         if k.items.None? then NoItems else ItemsIn(k.items.value),
         if k.anyOf.None? then NoAnyOf else AnyOfIn(k.anyOf.value))
  }

  function LeafOf(k: Keywords): Leaf {
    Leaf(k.unknown, if k.declared.None? then None else Some(TypesOf(k.declared.value)), k.const_, k.enum_,
         k.minLength, k.maxLength, k.minItems, k.pattern, k.required)
  }

  function PropertiesIn(v: Json): Properties
    decreases v, 3
  {
    if v.Obj? then Properties(v.keys, SchemasOf(v.items)) else BadProperties
  }

  function AdditionalIn(v: Json): Additional
    decreases v, 3
  {
    if v.Obj? then AdditionalSchema(SchemaOf(v)) else if v.Bool? then Allowed(v.b) else BadAdditional
  }

  function ItemsIn(v: Json): Items
    decreases v, 3
  {
    if v.Obj? then ItemSchema(SchemaOf(v)) else BadItems
  }

  function AnyOfIn(v: Json): AnyOf
    decreases v, 3
  {
    if v.Arr? && v.items != [] then Alternatives(SchemasOf(v.items)) else BadAnyOf
  }

  function SchemasOf(docs: seq<Json>): (r: seq<Schema>)
    ensures |r| == |docs| && forall i :: 0 <= i < |docs| ==> r[i] == SchemaOf(docs[i])
    decreases docs, 3
  {
    seq(|docs|, i requires 0 <= i < |docs| => SchemaOf(docs[i]))
  }

  /** What a node holds, keyword by keyword. */
  lemma NodeParts(doc: Json, k: Keywords)
    requires Parts(doc, k)
    ensures var n := NodeOf(doc, k);
      && n.Node? && n.leaf == LeafOf(k)
      && n.properties == (if k.properties.None? then NoProperties else PropertiesIn(k.properties.value))
      && n.additional == (if k.additional.None? then NoAdditional else AdditionalIn(k.additional.value))
      && n.items == (if k.items.None? then NoItems else ItemsIn(k.items.value))
      && n.anyOf == (if k.anyOf.None? then NoAnyOf else AnyOfIn(k.anyOf.value))
  {
  }

  /** A document is read as a schema whose properties are dictionaries. */
  lemma {:induction false} ReadsDictionaries(doc: Json)
    requires WellFormed(doc)
    ensures Dictionary(SchemaOf(doc))
    decreases doc, 1
  {
    if doc.Obj? {
      NodeIsDictionary(doc, KeywordsOf(doc));
    }
  }

  lemma {:induction false} NodeIsDictionary(doc: Json, k: Keywords)
    requires Parts(doc, k) && WellFormedParts(k)
    ensures Dictionary(NodeOf(doc, k))
    decreases doc, 0
  {
    NodeParts(doc, k);
    if k.properties.Some? && k.properties.value.Obj? {
      AllReadDictionaries(k.properties.value.items);
    }
    if k.additional.Some? && k.additional.value.Obj? {
      ReadsDictionaries(k.additional.value);
    }
    if k.items.Some? && k.items.value.Obj? {
      ReadsDictionaries(k.items.value);
    }
    if k.anyOf.Some? && k.anyOf.value.Arr? {
      AllReadDictionaries(k.anyOf.value.items);
    }
  }

  lemma {:induction false} AllReadDictionaries(docs: seq<Json>)
    requires forall i :: 0 <= i < |docs| ==> WellFormed(docs[i])
    ensures forall i :: 0 <= i < |docs| ==> Dictionary(SchemasOf(docs)[i])
    decreases docs, 2
  {
    forall i | 0 <= i < |docs| ensures Dictionary(SchemasOf(docs)[i]) {
      ReadsDictionaries(docs[i]);
    }
  }

  // ---------------------------------------------------------------- what one node is reported for

  datatype ProblemKind =
    | NestsTooDeep | NotASchema | UnknownKeywords | BadType | BadEnum | BadMinLength | BadMaxLength | BadMinItems
    | BadPattern | BadRequired | PropertiesForm | AdditionalForm | ItemsForm | AnyOfForm

  datatype Problem = Problem(location: string, kind: ProblemKind)
  datatype Located = Located(doc: Json, location: string)

  /** One type name, or a list of distinct ones. */
  predicate TypeOk(declared: Json) {
    var names := Names(declared);
    && names != []
    && (forall i :: 0 <= i < |names| ==> TypeOf(names[i]).Known?)
    && forall i, j :: 0 <= i < j < |names| ==> names[i] != names[j]
  }

  predicate EnumOk(v: Json) {
    v.Arr? && v.items != []
  }

  predicate PatternOk(p: Patterns, v: Json) {
    v.Str? && p.translates(v.s)
  }

  /** What a node is reported for, in the order of the tests. */
  function Own(p: Patterns, e: Located): seq<Problem> {
    if e.doc.Obj? then OwnOf(p, KeywordsOf(e.doc), e.location) else [Problem(e.location, NotASchema)]
  }

  function OwnOf(p: Patterns, k: Keywords, at: string): seq<Problem> {
    OwnLists(k, at) + OwnBounds(k, at) + OwnNames(p, k, at) + OwnForms(k, at)
  }

  function OwnLists(k: Keywords, at: string): seq<Problem> {
    Unless(k.unknown == [], Problem(at, UnknownKeywords)) +
    Unless(k.declared.None? || TypeOk(k.declared.value), Problem(at, BadType)) +
    Unless(k.enum_.None? || EnumOk(k.enum_.value), Problem(at, BadEnum))
  }

  function OwnBounds(k: Keywords, at: string): seq<Problem> {
    Unless(k.minLength.None? || Natural(k.minLength.value), Problem(at, BadMinLength)) +
    Unless(k.maxLength.None? || Natural(k.maxLength.value), Problem(at, BadMaxLength)) +
    Unless(k.minItems.None? || Natural(k.minItems.value), Problem(at, BadMinItems))
  }

  function OwnNames(p: Patterns, k: Keywords, at: string): seq<Problem> {
    Unless(k.pattern.None? || PatternOk(p, k.pattern.value), Problem(at, BadPattern)) +
    Unless(k.required.None? || NameList(k.required.value), Problem(at, BadRequired))
  }

  function OwnForms(k: Keywords, at: string): seq<Problem> {
    Unless(k.properties.None? || k.properties.value.Obj?, Problem(at, PropertiesForm)) +
    Unless(k.additional.None? || k.additional.value.Obj? || k.additional.value.Bool?, Problem(at, AdditionalForm)) +
    Unless(k.items.None? || k.items.value.Obj?, Problem(at, ItemsForm)) +
    Unless(k.anyOf.None? || EnumOk(k.anyOf.value), Problem(at, AnyOfForm))
  }

  function NameOf(t: TypeName): string {
    match t
    case ObjectType => "object"
    case ArrayType => "array"
    case StringType => "string"
    case IntegerType => "integer"
    case NumberType => "number"
    case BooleanType => "boolean"
    case NullType => "null"
  }

  lemma TypeHasName(name: Json)
    requires TypeOf(name).Known?
    ensures name == Str(NameOf(TypeOf(name).name))
  {
  }

  lemma TypesAreRead(declared: Json)
    ensures TypeOk(declared) <==> TypesOk(TypesOf(declared))
  {
    var names, types := Names(declared), TypesOf(declared);
    if TypeOk(declared) {
      forall i, j | 0 <= i < j < |types| ensures types[i] != types[j] {
        if types[i] == types[j] {
          TypeHasName(names[i]);
          TypeHasName(names[j]);
        }
      }
    }
    if TypesOk(types) {
      forall i | 0 <= i < |names| ensures TypeOf(names[i]).Known? {
        assert types[i].Known?;
      }
      forall i, j | 0 <= i < j < |names| ensures names[i] != names[j] {
        assert types[i] != types[j];
      }
    }
  }

  /** A node is reported for nothing exactly when its own keywords are in order. */
  lemma OwnExactly(p: Patterns, doc: Json, k: Keywords, at: string)
    requires Parts(doc, k)
    ensures OwnOf(p, k, at) == [] <==> LeafOk(p, LeafOf(k)) && FormsOk(NodeOf(doc, k))
  {
    OwnPartsExactly(p, k, at);
    if k.declared.Some? {
      TypesAreRead(k.declared.value);
    }
  }

  predicate FormsOk(node: Schema)
    requires node.Node?
  {
    && !node.properties.BadProperties? && !node.additional.BadAdditional? && !node.items.BadItems?
    && !node.anyOf.BadAnyOf?
  }

  lemma OwnPartsExactly(p: Patterns, k: Keywords, at: string)
    ensures OwnLists(k, at) == [] <==>
      && k.unknown == [] && (k.declared.None? || TypeOk(k.declared.value)) && (k.enum_.None? || EnumOk(k.enum_.value))
    ensures OwnBounds(k, at) == [] <==>
      && (k.minLength.None? || Natural(k.minLength.value)) && (k.maxLength.None? || Natural(k.maxLength.value))
      && (k.minItems.None? || Natural(k.minItems.value))
    ensures OwnNames(p, k, at) == [] <==>
      && (k.pattern.None? || PatternOk(p, k.pattern.value)) && (k.required.None? || NameList(k.required.value))
    ensures OwnForms(k, at) == [] <==>
      && (k.properties.None? || k.properties.value.Obj?)
      && (k.additional.None? || k.additional.value.Obj? || k.additional.value.Bool?)
      && (k.items.None? || k.items.value.Obj?) && (k.anyOf.None? || EnumOk(k.anyOf.value))
  {
  }

  // ---------------------------------------------------------------- the nodes below it

  /** The subschemas pushed behind a node, in the order in which they are pushed. */
  function Subschemas(e: Located): (r: seq<Located>)
    ensures forall x :: x in r ==> (e.doc decreases to x.doc)
    ensures WellFormed(e.doc) ==> forall x :: x in r ==> WellFormed(x.doc)
  {
    if e.doc.Obj? then SubschemasOf(e.doc, KeywordsOf(e.doc), e.location) else []
  }

  function SubschemasOf(doc: Json, k: Keywords, at: string): (r: seq<Located>)
    requires Parts(doc, k)
    ensures forall x :: x in r ==> (doc decreases to x.doc)
    ensures WellFormedParts(k) ==> forall x :: x in r ==> WellFormed(x.doc)
  {
    Fields(doc, k.properties, at + "/properties/") + Single(doc, k.additional, at + "/additionalProperties") +
    Single(doc, k.items, at + "/items") + Listed(doc, k.anyOf, at + "/anyOf/")
  }

  function Fields(doc: Json, o: Option<Json>, at: string): (r: seq<Located>)
    requires o.Some? ==> (doc decreases to o.value)
    ensures forall x :: x in r ==> (doc decreases to x.doc)
    ensures o.Some? && WellFormed(o.value) ==> forall x :: x in r ==> WellFormed(x.doc)
  {
    if o.Some? && o.value.Obj? && |o.value.keys| == |o.value.items| then
      var v := o.value;
      seq(|v.items|, i requires 0 <= i < |v.items| => Located(v.items[i], at + v.keys[i]))
    else []
  }

  function Single(doc: Json, o: Option<Json>, at: string): (r: seq<Located>)
    requires o.Some? ==> (doc decreases to o.value)
    ensures forall x :: x in r ==> (doc decreases to x.doc)
    ensures o.Some? && WellFormed(o.value) ==> forall x :: x in r ==> WellFormed(x.doc)
  {
    if o.Some? && o.value.Obj? then [Located(o.value, at)] else []
  }

  function Listed(doc: Json, o: Option<Json>, at: string): (r: seq<Located>)
    requires o.Some? ==> (doc decreases to o.value)
    ensures forall x :: x in r ==> (doc decreases to x.doc)
    ensures o.Some? && WellFormed(o.value) ==> forall x :: x in r ==> WellFormed(x.doc)
  {
    if o.Some? && o.value.Arr? then
      var v := o.value;
      seq(|v.items|, i requires 0 <= i < |v.items| => Located(v.items[i], at + Decimal(i)))
    else []
  }

  predicate AllInterpretable(p: Patterns, es: seq<Located>) {
    forall e :: e in es ==> Interpretable(p, SchemaOf(e.doc))
  }

  /** A document is interpretable exactly when it is reported for nothing itself and all its subschemas are. */
  lemma SubschemasDecide(p: Patterns, e: Located)
    requires WellFormed(e.doc)
    ensures Interpretable(p, SchemaOf(e.doc)) <==> Own(p, e) == [] && AllInterpretable(p, Subschemas(e))
  {
    if e.doc.Obj? {
      var k := KeywordsOf(e.doc);
      OwnExactly(p, e.doc, k, e.location);
      PartsDecide(p, e.doc, k, e.location);
    }
  }

  lemma PartsDecide(p: Patterns, doc: Json, k: Keywords, at: string)
    requires Parts(doc, k) && WellFormedParts(k)
    ensures Interpretable(p, NodeOf(doc, k)) <==>
            LeafOk(p, LeafOf(k)) && FormsOk(NodeOf(doc, k)) && AllInterpretable(p, SubschemasOf(doc, k, at))
  {
    FieldsDecide(p, doc, k.properties, at + "/properties/");
    SingleDecides(p, doc, k.additional, at + "/additionalProperties");
    SingleDecides(p, doc, k.items, at + "/items");
    ListedDecide(p, doc, k.anyOf, at + "/anyOf/");
    FourParts(p, Fields(doc, k.properties, at + "/properties/"),
              Single(doc, k.additional, at + "/additionalProperties"),
              Single(doc, k.items, at + "/items"), Listed(doc, k.anyOf, at + "/anyOf/"));
    NodeDecides(p, doc, k);
  }

  predicate FieldsFine(p: Patterns, o: Option<Json>) {
    o.Some? && o.value.Obj? ==>
      forall i :: 0 <= i < |o.value.items| ==> Interpretable(p, SchemasOf(o.value.items)[i])
  }

  predicate ListFine(p: Patterns, o: Option<Json>) {
    o.Some? && o.value.Arr? ==>
      forall i :: 0 <= i < |o.value.items| ==> Interpretable(p, SchemasOf(o.value.items)[i])
  }

  predicate SingleFine(p: Patterns, o: Option<Json>) {
    o.Some? && o.value.Obj? ==> Interpretable(p, SchemaOf(o.value))
  }

  lemma NodeDecides(p: Patterns, doc: Json, k: Keywords)
    requires Parts(doc, k) && WellFormedParts(k)
    ensures Interpretable(p, NodeOf(doc, k)) <==>
      && LeafOk(p, LeafOf(k)) && FormsOk(NodeOf(doc, k))
      && FieldsFine(p, k.properties) && SingleFine(p, k.additional) && SingleFine(p, k.items) && ListFine(p, k.anyOf)
  {
    NodeParts(doc, k);
  }

  lemma FourParts(p: Patterns, a: seq<Located>, b: seq<Located>, c: seq<Located>, d: seq<Located>)
    ensures AllInterpretable(p, a + b + c + d) <==>
            AllInterpretable(p, a) && AllInterpretable(p, b) && AllInterpretable(p, c) && AllInterpretable(p, d)
  {
    forall x: Located ensures x in a + b + c + d <==> x in a || x in b || x in c || x in d {
    }
  }

  lemma FieldsDecide(p: Patterns, doc: Json, o: Option<Json>, at: string)
    requires o.Some? ==> (doc decreases to o.value) && WellFormed(o.value)
    ensures AllInterpretable(p, Fields(doc, o, at)) <==>
            FieldsFine(p, o)
  {
    if o.Some? && o.value.Obj? {
      SeqDecides(p, Fields(doc, o, at), o.value.items);
    }
  }

  lemma ListedDecide(p: Patterns, doc: Json, o: Option<Json>, at: string)
    requires o.Some? ==> (doc decreases to o.value)
    ensures AllInterpretable(p, Listed(doc, o, at)) <==>
            ListFine(p, o)
  {
    if o.Some? && o.value.Arr? {
      SeqDecides(p, Listed(doc, o, at), o.value.items);
    }
  }

  lemma SeqDecides(p: Patterns, es: seq<Located>, docs: seq<Json>)
    requires |es| == |docs| && forall i :: 0 <= i < |docs| ==> es[i].doc == docs[i]
    ensures AllInterpretable(p, es) <==>
            forall i :: 0 <= i < |docs| ==> Interpretable(p, SchemasOf(docs)[i])
  {
    if AllInterpretable(p, es) {
      forall i | 0 <= i < |docs| ensures Interpretable(p, SchemasOf(docs)[i]) {
        assert es[i] in es;
      }
    } else {
      var e :| e in es && !Interpretable(p, SchemaOf(e.doc));
      var i :| 0 <= i < |es| && es[i] == e;
      assert !Interpretable(p, SchemasOf(docs)[i]);
    }
  }

  lemma SingleDecides(p: Patterns, doc: Json, o: Option<Json>, at: string)
    requires o.Some? ==> (doc decreases to o.value)
    ensures AllInterpretable(p, Single(doc, o, at)) <==>
            SingleFine(p, o)
  {
    if o.Some? && o.value.Obj? {
      assert Single(doc, o, at)[0] in Single(doc, o, at);
    }
  }

  // ---------------------------------------------------------------- the walk

  /** The nodes that are looked at from `e` on: the node, then its subschemas, the last one first. */
  function Visits(e: Located): (r: seq<Located>)
    ensures r != []
    decreases e.doc, 1, 0
  {
    [e] + VisitsAll(e.doc, Subschemas(e))
  }

  function VisitsAll(doc: Json, es: seq<Located>): seq<Located>
    requires forall e :: e in es ==> (doc decreases to e.doc)
    decreases doc, 0, |es|
  {
    if es == [] then [] else Visits(es[|es| - 1]) + VisitsAll(doc, es[..|es| - 1])
  }

  /** A walk as three functions: what a node is reported for, what it pushes, and what is looked at from it on. */
  datatype Walk = Walk(own: Located -> seq<Problem>, push: Located -> seq<Located>, visits: Located -> seq<Located>)

  function SchemaWalk(p: Patterns): Walk {
    Walk(e => Own(p, e), Subschemas, Visits)
  }

  /** The nodes still to come when these are on the stack. */
  function Pending(w: Walk, stack: seq<Located>): seq<Located> {
    if stack == [] then [] else w.visits(stack[|stack| - 1]) + Pending(w, stack[..|stack| - 1])
  }

  function OwnAll(w: Walk, es: seq<Located>): seq<Problem> {
    if es == [] then [] else OwnAll(w, es[..|es| - 1]) + w.own(es[|es| - 1])
  }

  predicate Steps(w: Walk, e: Located) {
    w.visits(e) == [e] + Pending(w, w.push(e))
  }

  ghost predicate Walks(w: Walk) {
    forall e :: Steps(w, e)
  }

  lemma {:induction false} VisitsArePending(p: Patterns, doc: Json, es: seq<Located>)
    requires forall e :: e in es ==> (doc decreases to e.doc)
    ensures VisitsAll(doc, es) == Pending(SchemaWalk(p), es)
    decreases |es|
  {
    if es != [] {
      VisitsArePending(p, doc, es[..|es| - 1]);
    }
  }

  lemma SchemaWalks(p: Patterns)
    ensures Walks(SchemaWalk(p))
  {
    var w := SchemaWalk(p);
    forall e ensures Steps(w, e) {
      VisitsArePending(p, e.doc, Subschemas(e));
    }
  }

  /** Everything the preflight reports, in order. */
  function Problems(p: Patterns, doc: Json): seq<Problem> {
    if Depth(doc) > MAX_DEPTH then [Problem("#", NestsTooDeep)]
    else OwnAll(SchemaWalk(p), Visits(Located(doc, "#")))
  }

  lemma {:induction false} PendingAppend(w: Walk, a: seq<Located>, b: seq<Located>)
    ensures Pending(w, a + b) == Pending(w, b) + Pending(w, a)
    decreases |b|
  {
    if b == [] {
      assert a + b == a;
    } else {
      assert (a + b)[..|a + b| - 1] == a + b[..|b| - 1];
      PendingAppend(w, a, b[..|b| - 1]);
    }
  }

  /** Taking a node from the stack and pushing its subschemas keeps what is still to come. */
  lemma NextOnStack(w: Walk, rest: seq<Located>, e: Located)
    requires Walks(w)
    ensures Pending(w, rest + [e]) == [e] + Pending(w, rest + w.push(e))
  {
    assert (rest + [e])[..|rest|] == rest && Steps(w, e);
    PendingAppend(w, rest, w.push(e));
  }

  /** One turn of the loop. */
  lemma MoveOn(w: Walk, all: seq<Located>, seen: seq<Located>, rest: seq<Located>, e: Located)
    requires Walks(w) && all == seen + Pending(w, rest + [e])
    ensures all == (seen + [e]) + Pending(w, rest + w.push(e))
    ensures |Pending(w, rest + w.push(e))| < |Pending(w, rest + [e])|
    ensures OwnAll(w, seen + [e]) == OwnAll(w, seen) + w.own(e)
  {
    NextOnStack(w, rest, e);
    assert (seen + [e])[..|seen|] == seen;
    Assoc(seen, [e], Pending(w, rest + w.push(e)));
  }

  method LookAt(p: Patterns, ghost w: Walk, e: Located) returns (own: seq<Problem>, below: seq<Located>)
    requires w == SchemaWalk(p)
    ensures own == w.own(e) && below == w.push(e)
  {
    own, below := Own(p, e), Subschemas(e);
  }

  method WalkSchema(p: Patterns, ghost w: Walk, root: Located) returns (problems: seq<Problem>)
    requires w == SchemaWalk(p) && Walks(w)
    ensures problems == OwnAll(w, w.visits(root))
  {
    problems := [];
    var stack := [root];
    ghost var seen: seq<Located>, all := [], w.visits(root);
    assert [root][..0] == [];
    while stack != []
      invariant all == seen + Pending(w, stack) && problems == OwnAll(w, seen)
      decreases |Pending(w, stack)|
    {
      var e, rest := stack[|stack| - 1], stack[..|stack| - 1];
      assert stack == rest + [e];
      MoveOn(w, all, seen, rest, e);
      var own, below := LookAt(p, w, e);
      problems, seen, stack := problems + own, seen + [e], rest + below;
    }
    assert all == seen;
  }

  // ---------------------------------------------------------------- what it means

  lemma {:induction false} OwnAllAppend(w: Walk, a: seq<Located>, b: seq<Located>)
    ensures OwnAll(w, a + b) == OwnAll(w, a) + OwnAll(w, b)
    decreases |b|
  {
    if b == [] {
      assert a + b == a;
    } else {
      assert (a + b)[..|a + b| - 1] == a + b[..|b| - 1];
      OwnAllAppend(w, a, b[..|b| - 1]);
    }
  }

  predicate Silent(w: Walk, e: Located) {
    OwnAll(w, w.visits(e)) == []
  }

  lemma {:induction false} SilentBelow(w: Walk, es: seq<Located>)
    ensures OwnAll(w, Pending(w, es)) == [] <==> forall e :: e in es ==> Silent(w, e)
    decreases |es|
  {
    if es != [] {
      var front, last := es[..|es| - 1], es[|es| - 1];
      SilentBelow(w, front);
      OwnAllAppend(w, w.visits(last), Pending(w, front));
      assert es == front + [last] && last in es && forall e :: e in front ==> e in es;
    }
  }

  lemma SilentNode(w: Walk, e: Located)
    requires Walks(w)
    ensures Silent(w, e) <==> w.own(e) == [] && forall x :: x in w.push(e) ==> Silent(w, x)
  {
    assert Steps(w, e);
    SilentBelow(w, w.push(e));
    OwnAllAppend(w, [e], Pending(w, w.push(e)));
    assert [e][..0] == [];
    assert OwnAll(w, [e]) == w.own(e);
  }

  lemma {:induction false} SilentExactly(p: Patterns, e: Located)
    requires WellFormed(e.doc)
    ensures Silent(SchemaWalk(p), e) <==> Interpretable(p, SchemaOf(e.doc))
    decreases e.doc
  {
    var w := SchemaWalk(p);
    SchemaWalks(p);
    SilentNode(w, e);
    SubschemasDecide(p, e);
    forall x | x in Subschemas(e) ensures Silent(w, x) <==> Interpretable(p, SchemaOf(x.doc)) {
      SilentExactly(p, x);
    }
  }

  /** Nothing is reported exactly when the document nests within the limit and every form in it, at any depth, is one
      the evaluator implements. */
  lemma ProblemsExactly(p: Patterns, doc: Json)
    requires WellFormed(doc)
    ensures Problems(p, doc) == [] <==> Depth(doc) <= MAX_DEPTH && Interpretable(p, SchemaOf(doc))
  {
    SilentExactly(p, Located(doc, "#"));
  }

  method InterpretationProblems(p: Patterns, doc: Json) returns (problems: seq<Problem>)
    requires WellFormed(doc)
    ensures problems == Problems(p, doc)
    ensures problems == [] <==> Depth(doc) <= MAX_DEPTH && Interpretable(p, SchemaOf(doc))
  {
    ProblemsExactly(p, doc);
    var tooDeep := Worklist.JsonDepthExceeds(doc, MAX_DEPTH);
    if tooDeep {
      return [Problem("#", NestsTooDeep)];
    }
    SchemaWalks(p);
    problems := WalkSchema(p, SchemaWalk(p), Located(doc, "#"));
  }
}
