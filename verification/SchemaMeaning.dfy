/** What a schema document means, said of its own keys and values, and that the evaluator's reading of it means the
    same. */
module SchemaMeaning {
  import opened Bytes
  import opened Json
  import opened Schema
  import opened SchemaDocument

  datatype Keyword =
    | Annotation | Type | Const | Enum | MinLength | MaxLength | MinItems | Matching | Required
    | Fields | OtherFields | Elements | OneOf | Foreign

  function KeywordNamed(key: string): Keyword {
    match key
    case "$schema" => Annotation
    case "$id" => Annotation
    case "title" => Annotation
    case "description" => Annotation
    case "type" => Type
    case "const" => Const
    case "enum" => Enum
    case "minLength" => MinLength
    case "maxLength" => MaxLength
    case "minItems" => MinItems
    case "pattern" => Matching
    case "required" => Required
    case "properties" => Fields
    case "additionalProperties" => OtherFields
    case "items" => Elements
    case "anyOf" => OneOf
    case _ => Foreign
  }

  /** The names of the types, each with the values it admits. */
  predicate OfType(v: Json, name: string) {
    || (name == "object" && v.Obj?)
    || (name == "array" && v.Arr?)
    || (name == "string" && v.Str?)
    || (name == "integer" && (v.Int? || (v.Float? && v.f.Finite? && v.f.r == v.f.r.Floor as real)))
    || (name == "number" && (v.Int? || v.Float?))
    || (name == "boolean" && v.Bool?)
    || (name == "null" && v.Null?)
  }

  predicate IsType(name: string) {
    name in {"object", "array", "string", "integer", "number", "boolean", "null"}
  }

  /** Which key is which keyword, which names are types, and which values are of a type. */
  datatype Vocabulary = Vocabulary(keyword: string -> Keyword, isType: string -> bool, ofType: (Json, string) -> bool)

  const WORDS: Vocabulary := Vocabulary(KeywordNamed, IsType, OfType)

  // ---------------------------------------------------------------- documents that are interpreted

  /** Every key is a keyword whose value has the form that is interpreted, at every depth. */
  predicate DocOk(p: Patterns, w: Vocabulary, doc: Json)
    decreases doc, 0
  {
    && doc.Obj?
    && forall i :: 0 <= i < |doc.keys| && i < |doc.items| ==> FormOk(p, w, w.keyword(doc.keys[i]), doc.items[i])
  }

  predicate FormOk(p: Patterns, w: Vocabulary, kw: Keyword, c: Json)
    decreases c, 1
  {
    match kw
    case Foreign => false
    case Annotation => true
    case Const => true
    case Type => TypeFormOk(w, if c.Arr? then c.items else [c])
    case Enum => c.Arr? && c.items != []
    case MinLength => c.Int? && c.n >= 0
    case MaxLength => c.Int? && c.n >= 0
    case MinItems => c.Int? && c.n >= 0
    case Matching => c.Str? && p.translates(c.s)
    case Required => c.Arr? && forall i :: 0 <= i < |c.items| ==> c.items[i].Str?
    case Fields => c.Obj? && forall i :: 0 <= i < |c.items| ==> DocOk(p, w, c.items[i])
    case OtherFields => c.Bool? || DocOk(p, w, c)
    case Elements => DocOk(p, w, c)
    case OneOf => c.Arr? && c.items != [] && forall i :: 0 <= i < |c.items| ==> DocOk(p, w, c.items[i])
  }

  predicate TypeFormOk(w: Vocabulary, names: seq<Json>) {
    && names != []
    && (forall i :: 0 <= i < |names| ==> names[i].Str? && w.isType(names[i].s))
    && forall i, j :: 0 <= i < j < |names| ==> names[i] != names[j]
  }

  // ---------------------------------------------------------------- values that are valid

  /** A value is valid when every keyword of the document holds of it. */
  ghost predicate DocValid(p: Patterns, w: Vocabulary, v: Json, doc: Json)
    decreases doc, 0
  {
    doc.Obj? ==> forall i :: 0 <= i < |doc.keys| && i < |doc.items| ==>
      KeywordHolds(p, w, v, w.keyword(doc.keys[i]), doc.items[i], Declared(w, doc))
  }

  /** The names that `properties` declares. */
  ghost function Declared(w: Vocabulary, doc: Json): iset<string>
    requires doc.Obj?
  {
    iset i, j | 0 <= i < |doc.keys| && i < |doc.items| && w.keyword(doc.keys[i]) == Fields && doc.items[i].Obj?
      && 0 <= j < |doc.items[i].keys| :: doc.items[i].keys[j]
  }

  ghost predicate KeywordHolds(p: Patterns, w: Vocabulary, v: Json, kw: Keyword, c: Json, declared: iset<string>)
    decreases c, 1
  {
    match kw
    case Foreign => true
    case Annotation => true
    case Const => JsonEqual(v, c)
    case Type => OfSomeType(w, v, if c.Arr? then c.items else [c])
    case Enum => c.Arr? ==> exists i :: 0 <= i < |c.items| && JsonEqual(v, c.items[i])
    case MinLength => v.Str? && c.Int? ==> c.n <= |v.s|
    case MaxLength => v.Str? && c.Int? ==> |v.s| <= c.n
    case MinItems => v.Arr? && c.Int? ==> c.n <= |v.items|
    case Matching => v.Str? && c.Str? ==> p.search(c.s, v.s)
    case Required => v.Obj? && c.Arr? ==> forall i :: 0 <= i < |c.items| && c.items[i].Str? ==> c.items[i].s in v.keys
    case Fields =>
      v.Obj? && c.Obj? ==>
        forall i, j | 0 <= i < |v.keys| && i < |v.items| && 0 <= j < |c.keys| && j < |c.items| ::
          v.keys[i] == c.keys[j] ==> DocValid(p, w, v.items[i], c.items[j])
    case OtherFields =>
      v.Obj? ==> forall i :: 0 <= i < |v.keys| && i < |v.items| && v.keys[i] !in declared ==>
        if c.Bool? then c.b else DocValid(p, w, v.items[i], c)
    case Elements => v.Arr? ==> forall i :: 0 <= i < |v.items| ==> DocValid(p, w, v.items[i], c)
    case OneOf => c.Arr? ==> exists i :: 0 <= i < |c.items| && DocValid(p, w, v, c.items[i])
  }

  predicate OfSomeType(w: Vocabulary, v: Json, names: seq<Json>) {
    exists i :: 0 <= i < |names| && names[i].Str? && w.ofType(v, names[i].s)
  }

  // ---------------------------------------------------------------- the reading of a document

  /** What the document has under a keyword. */
  predicate Under(w: Vocabulary, doc: Json, kw: Keyword, o: Option<Json>) {
    && doc.Obj? && |doc.keys| == |doc.items|
    && (forall i :: 0 <= i < |doc.keys| && w.keyword(doc.keys[i]) == kw ==> o == Some(doc.items[i]))
    && (o.Some? ==> exists i :: 0 <= i < |doc.keys| && w.keyword(doc.keys[i]) == kw)
  }

  predicate NoForeign(w: Vocabulary, doc: Json) {
    doc.Obj? && forall i :: 0 <= i < |doc.keys| ==> w.keyword(doc.keys[i]) != Foreign
  }

  predicate ReadAs(w: Vocabulary, doc: Json, k: Keywords) {
    && (k.unknown == [] <==> NoForeign(w, doc))
    && Under(w, doc, Type, k.declared) && Under(w, doc, Const, k.const_) && Under(w, doc, Enum, k.enum_)
    && Under(w, doc, MinLength, k.minLength) && Under(w, doc, MaxLength, k.maxLength)
    && Under(w, doc, MinItems, k.minItems) && Under(w, doc, Matching, k.pattern)
    && Under(w, doc, Required, k.required) && Under(w, doc, Fields, k.properties)
    && Under(w, doc, OtherFields, k.additional) && Under(w, doc, Elements, k.items) && Under(w, doc, OneOf, k.anyOf)
  }

  lemma AtIsUnder(w: Vocabulary, doc: Json, key: string, kw: Keyword)
    requires doc.Obj? && WellFormed(doc) && forall s :: w.keyword(s) == kw <==> s == key
    ensures Under(w, doc, kw, At(doc, key))
  {
    var k := IndexOf(doc.keys, key);
    if k < |doc.keys| {
      assert w.keyword(doc.keys[k]) == kw;
    }
    forall i | 0 <= i < |doc.keys| && w.keyword(doc.keys[i]) == kw ensures i == k {
      assert doc.keys[i] == key && key in doc.keys && doc.keys[k] == key;
    }
  }

  lemma {:induction false} UnknownAreForeign(w: Vocabulary, keys: seq<string>, known: set<string>)
    requires forall s :: w.keyword(s) == Foreign <==> s !in known
    ensures Unknown(keys, known) == [] <==> forall i :: 0 <= i < |keys| ==> w.keyword(keys[i]) != Foreign
  {
    if keys != [] {
      var front, last := keys[..|keys| - 1], keys[|keys| - 1];
      UnknownAreForeign(w, front, known);
      assert forall i :: 0 <= i < |front| ==> front[i] == keys[i];
    }
  }

  lemma NamesAreKeywords(key: string)
    ensures KeywordNamed(key) == Type <==> key == "type"
    ensures KeywordNamed(key) == Const <==> key == "const"
    ensures KeywordNamed(key) == Enum <==> key == "enum"
    ensures KeywordNamed(key) == MinLength <==> key == "minLength"
    ensures KeywordNamed(key) == MaxLength <==> key == "maxLength"
    ensures KeywordNamed(key) == MinItems <==> key == "minItems"
    ensures KeywordNamed(key) == Matching <==> key == "pattern"
    ensures KeywordNamed(key) == Required <==> key == "required"
    ensures KeywordNamed(key) == Fields <==> key == "properties"
    ensures KeywordNamed(key) == OtherFields <==> key == "additionalProperties"
    ensures KeywordNamed(key) == Elements <==> key == "items"
    ensures KeywordNamed(key) == OneOf <==> key == "anyOf"
  {
  }

  lemma OthersAreForeign(key: string)
    ensures KeywordNamed(key) == Foreign <==> key !in KEYWORDS
  {
  }

  /** The reader takes each part from under its own keyword. */
  lemma KeywordsAreRead(doc: Json)
    requires doc.Obj? && WellFormed(doc)
    ensures ReadAs(WORDS, doc, KeywordsOf(doc))
  {
    forall s: string ensures WORDS.keyword(s) == KeywordNamed(s) {
    }
    forall s: string {
      NamesAreKeywords(s);
    }
    forall s: string {
      OthersAreForeign(s);
    }
    UnknownAreForeign(WORDS, doc.keys, KEYWORDS);
    AtIsUnder(WORDS, doc, "type", Type);
    AtIsUnder(WORDS, doc, "const", Const);
    AtIsUnder(WORDS, doc, "enum", Enum);
    AtIsUnder(WORDS, doc, "minLength", MinLength);
    AtIsUnder(WORDS, doc, "maxLength", MaxLength);
    AtIsUnder(WORDS, doc, "minItems", MinItems);
    AtIsUnder(WORDS, doc, "pattern", Matching);
    AtIsUnder(WORDS, doc, "required", Required);
    AtIsUnder(WORDS, doc, "properties", Fields);
    AtIsUnder(WORDS, doc, "additionalProperties", OtherFields);
    AtIsUnder(WORDS, doc, "items", Elements);
    AtIsUnder(WORDS, doc, "anyOf", OneOf);
  }

  ghost predicate TypeAgrees(w: Vocabulary, name: Json) {
    && (TypeOf(name).Known? <==> name.Str? && w.isType(name.s))
    && (name.Str? && TypeOf(name).Known? ==> forall v :: w.ofType(v, name.s) <==> HasType(v, TypeOf(name).name))
  }

  lemma TypesAgree(name: Json)
    ensures TypeAgrees(WORDS, name)
  {
  }

  lemma AllTypesAgree()
    ensures forall name :: TypeAgrees(WORDS, name)
  {
    forall name ensures TypeAgrees(WORDS, name) {
      TypesAgree(name);
    }
  }

  // ---------------------------------------------------------------- forms

  predicate EachOk(p: Patterns, w: Vocabulary, doc: Json, kw: Keyword) {
    doc.Obj? ==> forall i :: 0 <= i < |doc.keys| && i < |doc.items| && w.keyword(doc.keys[i]) == kw ==>
      FormOk(p, w, kw, doc.items[i])
  }

  lemma EachOkIs(p: Patterns, w: Vocabulary, doc: Json, kw: Keyword, o: Option<Json>)
    requires Under(w, doc, kw, o)
    ensures EachOk(p, w, doc, kw) <==> (o.Some? ==> FormOk(p, w, kw, o.value))
  {
  }

  predicate LeavesOk(p: Patterns, w: Vocabulary, doc: Json) {
    && EachOk(p, w, doc, Type) && EachOk(p, w, doc, Enum) && EachOk(p, w, doc, MinLength)
    && EachOk(p, w, doc, MaxLength) && EachOk(p, w, doc, MinItems) && EachOk(p, w, doc, Matching)
    && EachOk(p, w, doc, Required)
  }

  predicate BranchesOk(p: Patterns, w: Vocabulary, doc: Json) {
    && EachOk(p, w, doc, Fields) && EachOk(p, w, doc, OtherFields) && EachOk(p, w, doc, Elements)
    && EachOk(p, w, doc, OneOf)
  }

  lemma OkByKeyword(p: Patterns, w: Vocabulary, doc: Json)
    requires doc.Obj? && |doc.keys| == |doc.items|
    ensures DocOk(p, w, doc) <==> NoForeign(w, doc) && LeavesOk(p, w, doc) && BranchesOk(p, w, doc)
  {
    if NoForeign(w, doc) && LeavesOk(p, w, doc) && BranchesOk(p, w, doc) {
      forall i | 0 <= i < |doc.keys| ensures FormOk(p, w, w.keyword(doc.keys[i]), doc.items[i]) {
        AnyKeywordOk(p, w, doc, w.keyword(doc.keys[i]));
      }
    }
  }

  lemma AnyKeywordOk(p: Patterns, w: Vocabulary, doc: Json, kw: Keyword)
    requires LeavesOk(p, w, doc) && BranchesOk(p, w, doc) && kw != Foreign
    ensures EachOk(p, w, doc, kw)
  {
  }

  lemma TypesOkExactly(w: Vocabulary, c: Json)
    requires forall name :: TypeAgrees(w, name)
    ensures TypeFormOk(w, if c.Arr? then c.items else [c]) <==> TypesOk(TypesOf(c))
  {
    TypesAreRead(c);
    assert forall i :: 0 <= i < |Names(c)| ==> TypeAgrees(w, Names(c)[i]);
  }

  /** The forms of a reading, each as its keyword asks for it. */
  predicate LeafForms(p: Patterns, w: Vocabulary, k: Keywords) {
    && (k.declared.Some? ==> FormOk(p, w, Type, k.declared.value))
    && (k.enum_.Some? ==> FormOk(p, w, Enum, k.enum_.value))
    && (k.minLength.Some? ==> FormOk(p, w, MinLength, k.minLength.value))
    && (k.maxLength.Some? ==> FormOk(p, w, MaxLength, k.maxLength.value))
    && (k.minItems.Some? ==> FormOk(p, w, MinItems, k.minItems.value))
    && (k.pattern.Some? ==> FormOk(p, w, Matching, k.pattern.value))
    && (k.required.Some? ==> FormOk(p, w, Required, k.required.value))
  }

  lemma LeavesByForm(p: Patterns, w: Vocabulary, doc: Json, k: Keywords)
    requires ReadAs(w, doc, k)
    ensures LeavesOk(p, w, doc) <==> LeafForms(p, w, k)
  {
    EachOkIs(p, w, doc, Type, k.declared);
    EachOkIs(p, w, doc, Enum, k.enum_);
    EachOkIs(p, w, doc, MinLength, k.minLength);
    EachOkIs(p, w, doc, MaxLength, k.maxLength);
    EachOkIs(p, w, doc, MinItems, k.minItems);
    EachOkIs(p, w, doc, Matching, k.pattern);
    EachOkIs(p, w, doc, Required, k.required);
  }

  lemma LeafFormsExactly(p: Patterns, w: Vocabulary, k: Keywords)
    requires forall name :: TypeAgrees(w, name)
    ensures LeafOk(p, LeafOf(k)) <==> k.unknown == [] && LeafForms(p, w, k)
  {
    if k.declared.Some? {
      TypesOkExactly(w, k.declared.value);
    }
  }

  lemma LeavesOkExactly(p: Patterns, w: Vocabulary, doc: Json, k: Keywords)
    requires ReadAs(w, doc, k) && forall name :: TypeAgrees(w, name)
    ensures LeafOk(p, LeafOf(k)) <==> NoForeign(w, doc) && LeavesOk(p, w, doc)
  {
    LeavesByForm(p, w, doc, k);
    LeafFormsExactly(p, w, k);
  }

  ghost predicate PartOf(doc: Json, o: Option<Json>) {
    o.Some? ==> (doc decreases to o.value) && WellFormed(o.value)
  }

  lemma {:induction false} FieldsOkExactly(p: Patterns, w: Vocabulary, doc: Json, o: Option<Json>)
    requires w == WORDS && Under(w, doc, Fields, o) && PartOf(doc, o)
    ensures EachOk(p, w, doc, Fields) <==> (o.Some? ==> o.value.Obj?) && FieldsFine(p, o)
    decreases doc, 0, 0
  {
    EachOkIs(p, w, doc, Fields, o);
    FineByList(p, o);
    if o.Some? {
      FormsByList(p, w, o.value);
      if o.value.Obj? {
        AllOkExactly(p, w, o.value.items, SchemasOf(o.value.items));
      }
    }
  }

  lemma {:induction false} OtherFieldsOkExactly(p: Patterns, w: Vocabulary, doc: Json, o: Option<Json>)
    requires w == WORDS && Under(w, doc, OtherFields, o) && PartOf(doc, o)
    ensures EachOk(p, w, doc, OtherFields) <==> (o.Some? ==> o.value.Obj? || o.value.Bool?) && SingleFine(p, o)
    decreases doc, 0, 0
  {
    EachOkIs(p, w, doc, OtherFields, o);
    if o.Some? {
      OkExactly(p, w, o.value);
    }
  }

  lemma {:induction false} ElementsOkExactly(p: Patterns, w: Vocabulary, doc: Json, o: Option<Json>)
    requires w == WORDS && Under(w, doc, Elements, o) && PartOf(doc, o)
    ensures EachOk(p, w, doc, Elements) <==> (o.Some? ==> o.value.Obj?) && SingleFine(p, o)
    decreases doc, 0, 0
  {
    EachOkIs(p, w, doc, Elements, o);
    if o.Some? {
      OkExactly(p, w, o.value);
    }
  }

  lemma {:induction false} OneOfOkExactly(p: Patterns, w: Vocabulary, doc: Json, o: Option<Json>)
    requires w == WORDS && Under(w, doc, OneOf, o) && PartOf(doc, o)
    ensures EachOk(p, w, doc, OneOf) <==> (o.Some? ==> EnumOk(o.value)) && ListFine(p, o)
    decreases doc, 0, 0
  {
    EachOkIs(p, w, doc, OneOf, o);
    FineByList(p, o);
    if o.Some? {
      FormsByList(p, w, o.value);
      if o.value.Arr? {
        AllOkExactly(p, w, o.value.items, SchemasOf(o.value.items));
      }
    }
  }

  lemma FormsByOption(doc: Json, k: Keywords)
    requires Parts(doc, k)
    ensures FormsOk(NodeOf(doc, k)) <==>
      && (k.properties.Some? ==> k.properties.value.Obj?)
      && (k.additional.Some? ==> k.additional.value.Obj? || k.additional.value.Bool?)
      && (k.items.Some? ==> k.items.value.Obj?) && (k.anyOf.Some? ==> EnumOk(k.anyOf.value))
  {
    NodeParts(doc, k);
  }

  lemma {:induction false} BranchesOkExactly(p: Patterns, w: Vocabulary, doc: Json, k: Keywords)
    requires w == WORDS && ReadAs(w, doc, k) && Parts(doc, k) && WellFormedParts(k)
    ensures BranchesOk(p, w, doc) <==>
      && FormsOk(NodeOf(doc, k)) && FieldsFine(p, k.properties) && SingleFine(p, k.additional)
      && SingleFine(p, k.items) && ListFine(p, k.anyOf)
    decreases doc, 0, 1
  {
    FormsByOption(doc, k);
    FieldsOkExactly(p, w, doc, k.properties);
    OtherFieldsOkExactly(p, w, doc, k.additional);
    ElementsOkExactly(p, w, doc, k.items);
    OneOfOkExactly(p, w, doc, k.anyOf);
  }

  predicate AllOk(p: Patterns, w: Vocabulary, docs: seq<Json>) {
    forall i :: 0 <= i < |docs| ==> DocOk(p, w, docs[i])
  }

  predicate AllFine(p: Patterns, schemas: seq<Schema>) {
    forall i :: 0 <= i < |schemas| ==> Interpretable(p, schemas[i])
  }

  lemma {:induction false} AllOkExactly(p: Patterns, w: Vocabulary, docs: seq<Json>, schemas: seq<Schema>)
    requires w == WORDS && schemas == SchemasOf(docs) && forall i :: 0 <= i < |docs| ==> WellFormed(docs[i])
    ensures AllOk(p, w, docs) <==> AllFine(p, schemas)
    decreases docs, 2
  {
    forall i | 0 <= i < |docs| ensures DocOk(p, w, docs[i]) <==> Interpretable(p, schemas[i]) {
      OkExactly(p, w, docs[i]);
    }
    SameThroughout(p, w, docs, schemas);
  }

  lemma SameThroughout(p: Patterns, w: Vocabulary, docs: seq<Json>, schemas: seq<Schema>)
    requires |docs| == |schemas|
    requires forall i :: 0 <= i < |docs| ==> (DocOk(p, w, docs[i]) <==> Interpretable(p, schemas[i]))
    ensures AllOk(p, w, docs) <==> AllFine(p, schemas)
  {
    if i :| 0 <= i < |docs| && !DocOk(p, w, docs[i]) {
      assert !Interpretable(p, schemas[i]);
    }
  }

  lemma FineByList(p: Patterns, o: Option<Json>)
    ensures o.Some? && o.value.Obj? ==> (FieldsFine(p, o) <==> AllFine(p, SchemasOf(o.value.items)))
    ensures o.Some? && o.value.Arr? ==> (ListFine(p, o) <==> AllFine(p, SchemasOf(o.value.items)))
  {
  }

  lemma FormsByList(p: Patterns, w: Vocabulary, c: Json)
    ensures FormOk(p, w, Fields, c) <==> c.Obj? && AllOk(p, w, c.items)
    ensures FormOk(p, w, OneOf, c) <==> c.Arr? && c.items != [] && AllOk(p, w, c.items)
  {
  }

  /** The document is read as an interpretable schema exactly when its keywords have the forms that are. */
  lemma {:induction false} OkExactly(p: Patterns, w: Vocabulary, doc: Json)
    requires w == WORDS && WellFormed(doc)
    ensures DocOk(p, w, doc) <==> Interpretable(p, SchemaOf(doc))
    decreases doc, 1
  {
    if doc.Obj? {
      KeywordsAreRead(doc);
      AllTypesAgree();
      NodeOkExactly(p, w, doc, KeywordsOf(doc));
    }
  }

  lemma {:induction false} NodeOkExactly(p: Patterns, w: Vocabulary, doc: Json, k: Keywords)
    requires w == WORDS && WellFormed(doc) && ReadAs(w, doc, k) && forall name :: TypeAgrees(w, name)
    requires Parts(doc, k) && WellFormedParts(k)
    ensures DocOk(p, w, doc) <==> Interpretable(p, NodeOf(doc, k))
    decreases doc, 0, 2
  {
    OkByKeyword(p, w, doc);
    NodeDecides(p, doc, k);
    LeavesOkExactly(p, w, doc, k);
    BranchesOkExactly(p, w, doc, k);
  }

  // ---------------------------------------------------------------- validity

  ghost predicate EachHolds(p: Patterns, w: Vocabulary, v: Json, doc: Json, kw: Keyword) {
    doc.Obj? ==> forall i :: 0 <= i < |doc.keys| && i < |doc.items| && w.keyword(doc.keys[i]) == kw ==>
      KeywordHolds(p, w, v, kw, doc.items[i], Declared(w, doc))
  }

  lemma EachHoldsIs(p: Patterns, w: Vocabulary, v: Json, doc: Json, kw: Keyword, o: Option<Json>)
    requires Under(w, doc, kw, o)
    ensures EachHolds(p, w, v, doc, kw) <==> (o.Some? ==> KeywordHolds(p, w, v, kw, o.value, Declared(w, doc)))
  {
  }

  ghost predicate LeavesHold(p: Patterns, w: Vocabulary, v: Json, doc: Json) {
    && EachHolds(p, w, v, doc, Const) && EachHolds(p, w, v, doc, Type) && EachHolds(p, w, v, doc, Enum)
    && EachHolds(p, w, v, doc, MinLength) && EachHolds(p, w, v, doc, MaxLength) && EachHolds(p, w, v, doc, MinItems)
    && EachHolds(p, w, v, doc, Matching) && EachHolds(p, w, v, doc, Required)
  }

  ghost predicate BranchesHold(p: Patterns, w: Vocabulary, v: Json, doc: Json) {
    && EachHolds(p, w, v, doc, Fields) && EachHolds(p, w, v, doc, OtherFields)
    && EachHolds(p, w, v, doc, Elements) && EachHolds(p, w, v, doc, OneOf)
  }

  lemma HoldsByKeyword(p: Patterns, w: Vocabulary, v: Json, doc: Json)
    requires doc.Obj? && |doc.keys| == |doc.items|
    ensures DocValid(p, w, v, doc) <==> LeavesHold(p, w, v, doc) && BranchesHold(p, w, v, doc)
  {
    if LeavesHold(p, w, v, doc) && BranchesHold(p, w, v, doc) {
      forall i | 0 <= i < |doc.keys|
        ensures KeywordHolds(p, w, v, w.keyword(doc.keys[i]), doc.items[i], Declared(w, doc))
      {
        AnyKeywordHolds(p, w, v, doc, w.keyword(doc.keys[i]));
      }
    }
  }

  lemma AnyKeywordHolds(p: Patterns, w: Vocabulary, v: Json, doc: Json, kw: Keyword)
    requires LeavesHold(p, w, v, doc) && BranchesHold(p, w, v, doc)
    ensures EachHolds(p, w, v, doc, kw)
  {
  }

  lemma TypesHoldExactly(w: Vocabulary, v: Json, c: Json)
    requires (forall name :: TypeAgrees(w, name)) && TypesOk(TypesOf(c))
    ensures OfSomeType(w, v, if c.Arr? then c.items else [c]) <==>
            exists i :: 0 <= i < |TypesOf(c)| && HasType(v, TypesOf(c)[i].name)
  {
    var names, types := Names(c), TypesOf(c);
    forall i | 0 <= i < |names| ensures names[i].Str? && (w.ofType(v, names[i].s) <==> HasType(v, types[i].name)) {
      assert TypeAgrees(w, names[i]) && types[i].Known?;
    }
    if i :| 0 <= i < |types| && HasType(v, types[i].name) {
      assert names[i].Str? && w.ofType(v, names[i].s);
    }
    if i :| 0 <= i < |names| && names[i].Str? && w.ofType(v, names[i].s) {
      assert HasType(v, types[i].name);
    }
  }

  /** The assertions of a reading, each as its keyword says it. */
  ghost predicate AnyValueOptions(p: Patterns, w: Vocabulary, v: Json, k: Keywords, names: iset<string>) {
    && (k.const_.Some? ==> KeywordHolds(p, w, v, Const, k.const_.value, names))
    && (k.declared.Some? ==> KeywordHolds(p, w, v, Type, k.declared.value, names))
    && (k.enum_.Some? ==> KeywordHolds(p, w, v, Enum, k.enum_.value, names))
  }

  ghost predicate TextOptions(p: Patterns, w: Vocabulary, v: Json, k: Keywords, names: iset<string>) {
    && (k.minLength.Some? ==> KeywordHolds(p, w, v, MinLength, k.minLength.value, names))
    && (k.maxLength.Some? ==> KeywordHolds(p, w, v, MaxLength, k.maxLength.value, names))
    && (k.pattern.Some? ==> KeywordHolds(p, w, v, Matching, k.pattern.value, names))
  }

  ghost predicate ContainerOptions(p: Patterns, w: Vocabulary, v: Json, k: Keywords, names: iset<string>) {
    && (k.minItems.Some? ==> KeywordHolds(p, w, v, MinItems, k.minItems.value, names))
    && (k.required.Some? ==> KeywordHolds(p, w, v, Required, k.required.value, names))
  }

  lemma AnyValueLeaves(p: Patterns, w: Vocabulary, v: Json, doc: Json, k: Keywords)
    requires ReadAs(w, doc, k)
    ensures AnyValueOptions(p, w, v, k, Declared(w, doc)) <==>
            EachHolds(p, w, v, doc, Const) && EachHolds(p, w, v, doc, Type) && EachHolds(p, w, v, doc, Enum)
  {
    EachHoldsIs(p, w, v, doc, Const, k.const_);
    EachHoldsIs(p, w, v, doc, Type, k.declared);
    EachHoldsIs(p, w, v, doc, Enum, k.enum_);
  }

  lemma TextLeaves(p: Patterns, w: Vocabulary, v: Json, doc: Json, k: Keywords)
    requires ReadAs(w, doc, k)
    ensures TextOptions(p, w, v, k, Declared(w, doc)) <==>
            && EachHolds(p, w, v, doc, MinLength) && EachHolds(p, w, v, doc, MaxLength)
            && EachHolds(p, w, v, doc, Matching)
  {
    EachHoldsIs(p, w, v, doc, MinLength, k.minLength);
    EachHoldsIs(p, w, v, doc, MaxLength, k.maxLength);
    EachHoldsIs(p, w, v, doc, Matching, k.pattern);
  }

  lemma ContainerLeaves(p: Patterns, w: Vocabulary, v: Json, doc: Json, k: Keywords)
    requires ReadAs(w, doc, k)
    ensures ContainerOptions(p, w, v, k, Declared(w, doc)) <==>
            EachHolds(p, w, v, doc, MinItems) && EachHolds(p, w, v, doc, Required)
  {
    EachHoldsIs(p, w, v, doc, MinItems, k.minItems);
    EachHoldsIs(p, w, v, doc, Required, k.required);
  }

  lemma LeavesHoldExactly(p: Patterns, w: Vocabulary, v: Json, doc: Json, k: Keywords)
    requires ReadAs(w, doc, k) && (forall name :: TypeAgrees(w, name)) && LeafOk(p, LeafOf(k))
    ensures LeafHolds(p, v, LeafOf(k)) <==> LeavesHold(p, w, v, doc)
  {
    AnyValueLeaves(p, w, v, doc, k);
    TextLeaves(p, w, v, doc, k);
    ContainerLeaves(p, w, v, doc, k);
    AnyValueExactly(p, w, v, k, Declared(w, doc));
    TextExactly(p, w, v, k, Declared(w, doc));
    ContainerExactly(p, w, v, k, Declared(w, doc));
    LeafByGroup(p, v, LeafOf(k));
  }

  predicate AnyValueHolds(p: Patterns, v: Json, leaf: Leaf)
    requires LeafOk(p, leaf)
  {
    && (leaf.const_.Some? ==> JsonEqual(v, leaf.const_.value))
    && (leaf.enum_.Some? ==>
          exists i :: 0 <= i < |leaf.enum_.value.items| && JsonEqual(v, leaf.enum_.value.items[i]))
    && (leaf.types.Some? ==>
          exists i :: 0 <= i < |leaf.types.value| && HasType(v, leaf.types.value[i].name))
  }

  predicate TextHolds(p: Patterns, v: Json, leaf: Leaf)
    requires LeafOk(p, leaf)
  {
    v.Str? ==>
      && (leaf.minLength.Some? ==> |v.s| >= leaf.minLength.value.n)
      && (leaf.maxLength.Some? ==> |v.s| <= leaf.maxLength.value.n)
      && (leaf.pattern.Some? ==> p.search(leaf.pattern.value.s, v.s))
  }

  predicate ContainerHolds(p: Patterns, v: Json, leaf: Leaf)
    requires LeafOk(p, leaf)
  {
    && (v.Arr? && leaf.minItems.Some? ==> |v.items| >= leaf.minItems.value.n)
    && (v.Obj? && leaf.required.Some? ==>
          forall i :: 0 <= i < |leaf.required.value.items| ==> leaf.required.value.items[i].s in v.keys)
  }

  lemma LeafByGroup(p: Patterns, v: Json, leaf: Leaf)
    requires LeafOk(p, leaf)
    ensures LeafHolds(p, v, leaf) <==> AnyValueHolds(p, v, leaf) && TextHolds(p, v, leaf) && ContainerHolds(p, v, leaf)
  {
  }

  lemma AnyValueExactly(p: Patterns, w: Vocabulary, v: Json, k: Keywords, names: iset<string>)
    requires (forall name :: TypeAgrees(w, name)) && LeafOk(p, LeafOf(k))
    ensures AnyValueHolds(p, v, LeafOf(k)) <==> AnyValueOptions(p, w, v, k, names)
  {
    if k.declared.Some? {
      TypesHoldExactly(w, v, k.declared.value);
    }
  }

  lemma TextExactly(p: Patterns, w: Vocabulary, v: Json, k: Keywords, names: iset<string>)
    requires LeafOk(p, LeafOf(k))
    ensures TextHolds(p, v, LeafOf(k)) <==> TextOptions(p, w, v, k, names)
  {
  }

  lemma ContainerExactly(p: Patterns, w: Vocabulary, v: Json, k: Keywords, names: iset<string>)
    requires LeafOk(p, LeafOf(k))
    ensures ContainerHolds(p, v, LeafOf(k)) <==> ContainerOptions(p, w, v, k, names)
  {
  }

  // ---------------------------------------------------------------- subschemas

  predicate Readable(p: Patterns, s: Schema) {
    Interpretable(p, s) && Dictionary(s)
  }

  predicate AllReadable(p: Patterns, schemas: seq<Schema>) {
    forall i :: 0 <= i < |schemas| ==> Readable(p, schemas[i])
  }

  ghost predicate ValidBy(p: Patterns, v: Json, s: Schema) {
    Readable(p, s) && WellFormed(v) && Valid(p, v, s)
  }

  ghost predicate OneOfPart(p: Patterns, v: Json, part: AnyOf) {
    part.Alternatives? ==> SomeSchema(p, v, part.schemas)
  }

  ghost predicate SomeSchema(p: Patterns, v: Json, schemas: seq<Schema>) {
    exists i :: 0 <= i < |schemas| && ValidBy(p, v, schemas[i])
  }

  ghost predicate SomeDoc(p: Patterns, w: Vocabulary, v: Json, docs: seq<Json>) {
    exists i :: 0 <= i < |docs| && DocValid(p, w, v, docs[i])
  }

  lemma OneOfMeans(p: Patterns, w: Vocabulary, v: Json, c: Json, names: iset<string>)
    requires c.Arr?
    ensures KeywordHolds(p, w, v, OneOf, c, names) <==> SomeDoc(p, w, v, c.items)
  {
  }

  ghost predicate ElementsPart(p: Patterns, v: Json, part: Items) {
    v.Arr? && part.ItemSchema? ==> AllValidBy(p, v.items, part.s)
  }

  ghost predicate AllValidBy(p: Patterns, items: seq<Json>, s: Schema) {
    forall i :: 0 <= i < |items| ==> ValidBy(p, items[i], s)
  }

  ghost predicate AllDocValid(p: Patterns, w: Vocabulary, items: seq<Json>, doc: Json) {
    forall i :: 0 <= i < |items| ==> DocValid(p, w, items[i], doc)
  }

  lemma ElementsMean(p: Patterns, w: Vocabulary, v: Json, c: Json, names: iset<string>)
    ensures KeywordHolds(p, w, v, Elements, c, names) <==> (v.Arr? ==> AllDocValid(p, w, v.items, c))
  {
  }

  ghost predicate FieldPart(p: Patterns, key: string, item: Json, named: Properties, other: Additional) {
    if named.Properties? && key in named.names then
      var j := IndexOf(named.names, key); j < |named.schemas| && ValidBy(p, item, named.schemas[j])
    else OtherPart(p, item, other)
  }

  ghost predicate FieldsPart(p: Patterns, v: Json, named: Properties, other: Additional) {
    v.Obj? ==> forall i :: 0 <= i < |v.keys| && i < |v.items| ==> FieldPart(p, v.keys[i], v.items[i], named, other)
  }

  lemma PartsAreReadable(p: Patterns, s: Schema)
    requires Readable(p, s)
    ensures s.Node?
    ensures s.properties.Properties? ==>
      |s.properties.names| == |s.properties.schemas| && AllReadable(p, s.properties.schemas)
    ensures s.additional.AdditionalSchema? ==> Readable(p, s.additional.s)
    ensures s.items.ItemSchema? ==> Readable(p, s.items.s)
    ensures s.anyOf.Alternatives? ==> AllReadable(p, s.anyOf.schemas)
  {
  }

  lemma FieldByPart(p: Patterns, key: string, item: Json, s: Schema)
    requires Readable(p, s) && WellFormed(item)
    ensures FieldValid(p, key, item, s) <==> FieldPart(p, key, item, s.properties, s.additional)
  {
    PartsAreReadable(p, s);
    if s.properties.Properties? && key in s.properties.names {
      assert Readable(p, s.properties.schemas[IndexOf(s.properties.names, key)]);
    }
  }

  lemma ValidByPart(p: Patterns, v: Json, s: Schema)
    requires Readable(p, s) && WellFormed(v)
    ensures Valid(p, v, s) <==>
      && LeafHolds(p, v, s.leaf) && OneOfPart(p, v, s.anyOf) && ElementsPart(p, v, s.items)
      && FieldsPart(p, v, s.properties, s.additional)
  {
    PartsAreReadable(p, s);
    if v.Obj? {
      forall i | 0 <= i < |v.keys|
        ensures FieldValid(p, v.keys[i], v.items[i], s) <==>
                FieldPart(p, v.keys[i], v.items[i], s.properties, s.additional)
      {
        FieldByPart(p, v.keys[i], v.items[i], s);
      }
    }
    if s.anyOf.Alternatives? {
      forall i | 0 <= i < |s.anyOf.schemas| ensures Readable(p, s.anyOf.schemas[i]) {
      }
    }
  }

  lemma {:induction false} ElementsExactly(p: Patterns, w: Vocabulary, v: Json, doc: Json, o: Option<Json>, part: Items)
    requires w == WORDS && Under(w, doc, Elements, o) && PartOf(doc, o) && WellFormed(v)
    requires part == (if o.None? then NoItems else ItemsIn(o.value)) && !part.BadItems?
    requires part.ItemSchema? ==> Readable(p, part.s)
    ensures EachHolds(p, w, v, doc, Elements) <==> ElementsPart(p, v, part)
    decreases doc, 0, 0
  {
    EachHoldsIs(p, w, v, doc, Elements, o);
    if o.Some? {
      ElementsMean(p, w, v, o.value, Declared(w, doc));
      if v.Arr? {
        forall i | 0 <= i < |v.items| ensures ValidBy(p, v.items[i], part.s) <==> DocValid(p, w, v.items[i], o.value) {
          MeansTheSame(p, w, v.items[i], o.value);
        }
      }
    }
  }

  lemma {:induction false} OneOfExactly(p: Patterns, w: Vocabulary, v: Json, doc: Json, o: Option<Json>, part: AnyOf)
    requires w == WORDS && Under(w, doc, OneOf, o) && PartOf(doc, o) && WellFormed(v)
    requires part == (if o.None? then NoAnyOf else AnyOfIn(o.value)) && !part.BadAnyOf?
    requires part.Alternatives? ==> AllReadable(p, part.schemas)
    ensures EachHolds(p, w, v, doc, OneOf) <==> OneOfPart(p, v, part)
    decreases doc, 0, 0
  {
    EachHoldsIs(p, w, v, doc, OneOf, o);
    if o.Some? {
      OneOfMeans(p, w, v, o.value, Declared(w, doc));
      AllMeanTheSame(p, w, v, o.value.items, part.schemas);
    }
  }

  lemma {:induction false} AllMeanTheSame(p: Patterns, w: Vocabulary, v: Json, docs: seq<Json>, schemas: seq<Schema>)
    requires w == WORDS && schemas == SchemasOf(docs) && AllReadable(p, schemas) && WellFormed(v)
    requires forall i :: 0 <= i < |docs| ==> WellFormed(docs[i])
    ensures SomeSchema(p, v, schemas) <==> SomeDoc(p, w, v, docs)
    decreases docs, 2
  {
    forall i | 0 <= i < |docs| ensures ValidBy(p, v, schemas[i]) <==> DocValid(p, w, v, docs[i]) {
      assert Readable(p, schemas[i]);
      MeansTheSame(p, w, v, docs[i]);
    }
    SomewhereTheSame(p, w, v, docs, schemas);
  }

  lemma SomewhereTheSame(p: Patterns, w: Vocabulary, v: Json, docs: seq<Json>, schemas: seq<Schema>)
    requires |docs| == |schemas|
    requires forall i :: 0 <= i < |docs| ==> (ValidBy(p, v, schemas[i]) <==> DocValid(p, w, v, docs[i]))
    ensures SomeSchema(p, v, schemas) <==> SomeDoc(p, w, v, docs)
  {
    if i :| 0 <= i < |docs| && ValidBy(p, v, schemas[i]) {
      assert DocValid(p, w, v, docs[i]);
    }
    if i :| 0 <= i < |docs| && DocValid(p, w, v, docs[i]) {
      assert ValidBy(p, v, schemas[i]);
    }
  }

  ghost predicate NamedHolds(p: Patterns, w: Vocabulary, key: string, item: Json, o: Option<Json>) {
    o.Some? && o.value.Obj? ==>
      forall j :: 0 <= j < |o.value.keys| && j < |o.value.items| && key == o.value.keys[j] ==>
        DocValid(p, w, item, o.value.items[j])
  }

  ghost predicate OtherHolds(
    p: Patterns, w: Vocabulary, key: string, item: Json, o: Option<Json>, declared: iset<string>)
  {
    o.Some? && key !in declared ==> if o.value.Bool? then o.value.b else DocValid(p, w, item, o.value)
  }

  ghost predicate FieldHolds(
    p: Patterns, w: Vocabulary, key: string, item: Json, named: Option<Json>, other: Option<Json>,
    declared: iset<string>)
  {
    NamedHolds(p, w, key, item, named) && OtherHolds(p, w, key, item, other, declared)
  }

  lemma FieldsByField(p: Patterns, w: Vocabulary, v: Json, doc: Json, named: Option<Json>, other: Option<Json>)
    requires Under(w, doc, Fields, named) && Under(w, doc, OtherFields, other) && WellFormed(v)
    ensures EachHolds(p, w, v, doc, Fields) && EachHolds(p, w, v, doc, OtherFields) <==>
      (v.Obj? ==> forall i :: 0 <= i < |v.keys| ==>
        FieldHolds(p, w, v.keys[i], v.items[i], named, other, Declared(w, doc)))
  {
    EachHoldsIs(p, w, v, doc, Fields, named);
    EachHoldsIs(p, w, v, doc, OtherFields, other);
  }

  lemma DeclaredExactly(w: Vocabulary, doc: Json, named: Option<Json>, key: string)
    requires Under(w, doc, Fields, named)
    ensures key in Declared(w, doc) <==> DeclaredBy(named, key)
  {
    if named.Some? && named.value.Obj? && key in named.value.keys {
      var i :| 0 <= i < |doc.keys| && w.keyword(doc.keys[i]) == Fields;
      var j :| 0 <= j < |named.value.keys| && named.value.keys[j] == key;
      assert doc.items[i].keys[j] == key;
    }
  }

  lemma {:induction false} NamedExactly(
    p: Patterns, w: Vocabulary, key: string, item: Json, c: Json, schemas: seq<Schema>)
    requires w == WORDS && c.Obj? && WellFormed(c) && WellFormed(item) && key in c.keys
    requires schemas == SchemasOf(c.items) && AllReadable(p, schemas)
    ensures ValidBy(p, item, schemas[IndexOf(c.keys, key)]) <==> NamedHolds(p, w, key, item, Some(c))
    decreases c, 2
  {
    var j := IndexOf(c.keys, key);
    assert Readable(p, schemas[j]);
    MeansTheSame(p, w, item, c.items[j]);
    forall i | 0 <= i < |c.keys| && key == c.keys[i] ensures i == j {
      assert c.keys[i] == c.keys[j];
    }
  }

  ghost predicate OtherPart(p: Patterns, item: Json, other: Additional) {
    if other.Allowed? then other.b else if other.AdditionalSchema? then ValidBy(p, item, other.s) else true
  }

  lemma {:induction false} OtherExactly(
    p: Patterns, w: Vocabulary, key: string, item: Json, doc: Json, rest: Option<Json>, other: Additional,
    declared: iset<string>)
    requires w == WORDS && WellFormed(item) && PartOf(doc, rest) && key !in declared
    requires other == (if rest.None? then NoAdditional else AdditionalIn(rest.value))
    requires !other.BadAdditional? && (other.AdditionalSchema? ==> Readable(p, other.s))
    ensures OtherPart(p, item, other) <==> OtherHolds(p, w, key, item, rest, declared)
    decreases doc, 0, 0
  {
    if rest.Some? && rest.value.Obj? {
      MeansTheSame(p, w, item, rest.value);
    }
  }

  /** The two parts of a schema that speak of fields, as they are read. */
  ghost predicate FieldsRead(
    p: Patterns, doc: Json, read: Option<Json>, rest: Option<Json>, named: Properties, other: Additional)
  {
    && PartOf(doc, read) && PartOf(doc, rest)
    && named == (if read.None? then NoProperties else PropertiesIn(read.value))
    && other == (if rest.None? then NoAdditional else AdditionalIn(rest.value))
    && !named.BadProperties? && (named.Properties? ==> AllReadable(p, named.schemas))
    && !other.BadAdditional? && (other.AdditionalSchema? ==> Readable(p, other.s))
  }

  predicate DeclaredBy(read: Option<Json>, key: string) {
    read.Some? && read.value.Obj? && key in read.value.keys
  }

  lemma {:induction false} FieldExactly(
    p: Patterns, w: Vocabulary, key: string, item: Json, doc: Json, read: Option<Json>, rest: Option<Json>,
    named: Properties, other: Additional, declared: iset<string>)
    requires w == WORDS && WellFormed(item) && FieldsRead(p, doc, read, rest, named, other)
    requires key in declared <==> DeclaredBy(read, key)
    ensures FieldPart(p, key, item, named, other) <==> FieldHolds(p, w, key, item, read, rest, declared)
    decreases doc, 0, 1
  {
    if DeclaredBy(read, key) {
      NamedExactly(p, w, key, item, read.value, named.schemas);
    } else {
      OtherExactly(p, w, key, item, doc, rest, other, declared);
    }
  }

  lemma {:induction false} FieldsExactly(
    p: Patterns, w: Vocabulary, v: Json, doc: Json, read: Option<Json>, rest: Option<Json>,
    named: Properties, other: Additional)
    requires w == WORDS && Under(w, doc, Fields, read) && Under(w, doc, OtherFields, rest) && WellFormed(v)
    requires FieldsRead(p, doc, read, rest, named, other)
    ensures FieldsPart(p, v, named, other) <==> EachHolds(p, w, v, doc, Fields) && EachHolds(p, w, v, doc, OtherFields)
    decreases doc, 0, 2
  {
    FieldsByField(p, w, v, doc, read, rest);
    if v.Obj? {
      var declared := Declared(w, doc);
      forall i | 0 <= i < |v.keys|
        ensures FieldPart(p, v.keys[i], v.items[i], named, other) <==>
                FieldHolds(p, w, v.keys[i], v.items[i], read, rest, declared)
      {
        DeclaredExactly(w, doc, read, v.keys[i]);
        FieldExactly(p, w, v.keys[i], v.items[i], doc, read, rest, named, other, declared);
      }
    }
  }

  lemma {:induction false} BranchesExactly(p: Patterns, w: Vocabulary, v: Json, doc: Json, k: Keywords, s: Schema)
    requires w == WORDS && ReadAs(w, doc, k) && Parts(doc, k) && WellFormedParts(k) && WellFormed(v)
    requires s == NodeOf(doc, k) && Readable(p, s)
    ensures Valid(p, v, s) <==> LeafHolds(p, v, s.leaf) && BranchesHold(p, w, v, doc)
    decreases doc, 0, 3
  {
    NodeParts(doc, k);
    PartsAreReadable(p, s);
    ValidByPart(p, v, s);
    ElementsExactly(p, w, v, doc, k.items, s.items);
    OneOfExactly(p, w, v, doc, k.anyOf, s.anyOf);
    FieldsExactly(p, w, v, doc, k.properties, k.additional, s.properties, s.additional);
  }

  /** By the schema that a document is read as, those values are valid of which its keywords hold. */
  lemma {:induction false} MeansTheSame(p: Patterns, w: Vocabulary, v: Json, doc: Json)
    requires w == WORDS && WellFormed(v) && WellFormed(doc) && Readable(p, SchemaOf(doc))
    ensures Valid(p, v, SchemaOf(doc)) <==> DocValid(p, w, v, doc)
    decreases doc, 1
  {
    KeywordsAreRead(doc);
    AllTypesAgree();
    NodeMeansTheSame(p, w, v, doc, KeywordsOf(doc));
  }

  lemma {:induction false} NodeMeansTheSame(p: Patterns, w: Vocabulary, v: Json, doc: Json, k: Keywords)
    requires w == WORDS && WellFormed(v) && WellFormed(doc) && ReadAs(w, doc, k) && forall name :: TypeAgrees(w, name)
    requires Parts(doc, k) && WellFormedParts(k) && Readable(p, NodeOf(doc, k))
    ensures Valid(p, v, NodeOf(doc, k)) <==> DocValid(p, w, v, doc)
    decreases doc, 0, 4
  {
    NodeParts(doc, k);
    HoldsByKeyword(p, w, v, doc);
    LeavesHoldExactly(p, w, v, doc, k);
    BranchesExactly(p, w, v, doc, k, NodeOf(doc, k));
  }
}
