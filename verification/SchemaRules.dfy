/** Which rule is reported of a value, by the keyword of the document that fails of it. */
module SchemaRules {
  import opened Bytes
  import opened Json
  import opened Schema
  import opened SchemaViolations
  import opened SchemaDocument
  import Meaning = SchemaMeaning

  function KeywordFor(rule: Rule): Meaning.Keyword {
    match rule
    case NoAlternative => Meaning.OneOf
    case NotConst => Meaning.Const
    case NotInEnum => Meaning.Enum
    case WrongType => Meaning.Type
    case TooShort => Meaning.MinLength
    case TooLong => Meaning.MaxLength
    case NoMatch => Meaning.Matching
    case TooFewItems => Meaning.MinItems
    case Lacks(_) => Meaning.Required
  }

  /** The document has the rule's keyword, and it fails; of a name that is missed, `required` lists it. */
  ghost predicate RuleBroken(p: Patterns, w: Meaning.Vocabulary, v: Json, doc: Json, rule: Rule) {
    && doc.Obj?
    && exists i | 0 <= i < |doc.keys| && i < |doc.items| ::
         w.keyword(doc.keys[i]) == KeywordFor(rule) && Fails(p, w, v, rule, doc.items[i], Meaning.Declared(w, doc))
  }

  ghost predicate Fails(p: Patterns, w: Meaning.Vocabulary, v: Json, rule: Rule, c: Json, declared: iset<string>) {
    if rule.Lacks? then v.Obj? && c.Arr? && Str(rule.name) in c.items && rule.name !in v.keys
    else !Meaning.KeywordHolds(p, w, v, KeywordFor(rule), c, declared)
  }

  lemma RuleBrokenIs(p: Patterns, w: Meaning.Vocabulary, v: Json, doc: Json, rule: Rule, o: Option<Json>)
    requires Meaning.Under(w, doc, KeywordFor(rule), o)
    ensures RuleBroken(p, w, v, doc, rule) <==> o.Some? && Fails(p, w, v, rule, o.value, Meaning.Declared(w, doc))
  {
  }

  /** What a document has under the rule's keyword. */
  function UnderRule(k: Keywords, rule: Rule): Option<Json> {
    match rule
    case NoAlternative => k.anyOf
    case NotConst => k.const_
    case NotInEnum => k.enum_
    case WrongType => k.declared
    case TooShort => k.minLength
    case TooLong => k.maxLength
    case NoMatch => k.pattern
    case TooFewItems => k.minItems
    case Lacks(_) => k.required
  }

  // ---------------------------------------------------------------- the reports of one value

  lemma {:induction false} MissingExactly(keys: seq<string>, names: seq<Json>, place: Path, x: Violation)
    ensures x in Missing(keys, names, place) <==>
      x.place == place && x.rule.Lacks? && Str(x.rule.name) in names && x.rule.name !in keys
    decreases |names|
  {
    if names != [] {
      var front, last := names[..|names| - 1], names[|names| - 1];
      MissingExactly(keys, front, place, x);
      assert names == front + [last];
    }
  }

  predicate TextFails(p: Patterns, v: Json, leaf: Leaf, rule: Rule)
    requires LeafOk(p, leaf)
  {
    && v.Str?
    && match rule
       case TooShort => leaf.minLength.Some? && |v.s| < leaf.minLength.value.n
       case TooLong => leaf.maxLength.Some? && |v.s| > leaf.maxLength.value.n
       case NoMatch => leaf.pattern.Some? && !p.search(leaf.pattern.value.s, v.s)
       case _ => false
  }

  predicate LeafFails(p: Patterns, v: Json, leaf: Leaf, rule: Rule)
    requires LeafOk(p, leaf)
  {
    match rule
    case NoAlternative => false
    case NotConst => !ConstHolds(v, leaf)
    case NotInEnum => !EnumHolds(v, leaf)
    case WrongType => !TypeHolds(v, leaf)
    case TooFewItems => v.Arr? && leaf.minItems.Some? && |v.items| < leaf.minItems.value.n
    case Lacks(name) => v.Obj? && leaf.required.Some? && Str(name) in leaf.required.value.items && name !in v.keys
    case _ => TextFails(p, v, leaf, rule)
  }

  lemma LeafReports(p: Patterns, v: Json, leaf: Leaf, place: Path, rule: Rule)
    requires LeafOk(p, leaf)
    ensures Violation(place, rule) in LeafBroken(p, v, leaf, place) <==> LeafFails(p, v, leaf, rule)
  {
    KindReports(p, v, leaf, place, rule);
  }

  lemma KindReports(p: Patterns, v: Json, leaf: Leaf, place: Path, rule: Rule)
    requires LeafOk(p, leaf)
    ensures Violation(place, rule) in KindBroken(p, v, leaf, place) <==>
      LeafFails(p, v, leaf, rule) && !rule.NotConst? && !rule.NotInEnum? && !rule.WrongType?
  {
    if v.Obj? && leaf.required.Some? {
      MissingExactly(v.keys, leaf.required.value.items, place, Violation(place, rule));
    }
  }

  lemma FailsExactly(p: Patterns, w: Meaning.Vocabulary, v: Json, k: Keywords, rule: Rule, declared: iset<string>)
    requires LeafOk(p, LeafOf(k)) && (forall name :: Meaning.TypeAgrees(w, name)) && !rule.NoAlternative?
    ensures LeafFails(p, v, LeafOf(k), rule) <==>
      UnderRule(k, rule).Some? && Fails(p, w, v, rule, UnderRule(k, rule).value, declared)
  {
    if rule.WrongType? && k.declared.Some? {
      Meaning.TypesHoldExactly(w, v, k.declared.value);
      TypesHold(v, TypesOf(k.declared.value));
    }
  }

  lemma OneOfReports(p: Patterns, w: Meaning.Vocabulary, v: Json, doc: Json, k: Keywords, s: Schema)
    requires w == Meaning.WORDS && Meaning.ReadAs(w, doc, k) && Parts(doc, k) && WellFormedParts(k) && WellFormed(v)
    requires s == NodeOf(doc, k) && Meaning.Readable(p, s)
    ensures AnyOfHolds(p, v, s) <==> Meaning.EachHolds(p, w, v, doc, Meaning.OneOf)
  {
    NodeParts(doc, k);
    Meaning.PartsAreReadable(p, s);
    Meaning.OneOfExactly(p, w, v, doc, k.anyOf, s.anyOf);
    AnyOfByPart(p, v, s);
  }

  lemma AnyOfByPart(p: Patterns, v: Json, s: Schema)
    requires Meaning.Readable(p, s) && WellFormed(v)
    ensures AnyOfHolds(p, v, s) <==> Meaning.OneOfPart(p, v, s.anyOf)
  {
    Meaning.PartsAreReadable(p, s);
    if s.anyOf.Alternatives? {
      forall i | 0 <= i < |s.anyOf.schemas| ensures Meaning.Readable(p, s.anyOf.schemas[i]) {
      }
    }
  }

  /** Of the value itself, a rule is reported exactly when the document has its keyword and it fails. */
  lemma RuleExactly(p: Patterns, v: Json, doc: Json, place: Path, rule: Rule)
    requires WellFormed(v) && WellFormed(doc) && Interpretable(p, SchemaOf(doc)) && Dictionary(SchemaOf(doc))
    ensures Violation(place, rule) in OwnBroken(p, v, SchemaOf(doc), place) <==>
            RuleBroken(p, Meaning.WORDS, v, doc, rule)
  {
    Meaning.KeywordsAreRead(doc);
    Meaning.AllTypesAgree();
    NodeRuleExactly(p, Meaning.WORDS, v, doc, KeywordsOf(doc), SchemaOf(doc), place, rule);
  }

  lemma NodeRuleExactly(
    p: Patterns, w: Meaning.Vocabulary, v: Json, doc: Json, k: Keywords, s: Schema, place: Path, rule: Rule)
    requires w == Meaning.WORDS && Meaning.ReadAs(w, doc, k) && Parts(doc, k) && WellFormedParts(k) && WellFormed(v)
    requires s == NodeOf(doc, k) && Meaning.Readable(p, s) && forall name :: Meaning.TypeAgrees(w, name)
    ensures Violation(place, rule) in OwnBroken(p, v, s, place) <==> RuleBroken(p, w, v, doc, rule)
  {
    NodeParts(doc, k);
    LeafReports(p, v, s.leaf, place, rule);
    RuleBrokenIs(p, w, v, doc, rule, UnderRule(k, rule));
    if rule.NoAlternative? {
      OneOfReports(p, w, v, doc, k, s);
      Meaning.EachHoldsIs(p, w, v, doc, Meaning.OneOf, k.anyOf);
    } else {
      FailsExactly(p, w, v, k, rule, Meaning.Declared(w, doc));
    }
  }

  // ---------------------------------------------------------------- the problems of one node

  /** The keyword whose form a problem is about. */
  function KeywordOfProblem(kind: ProblemKind): Option<Meaning.Keyword> {
    match kind
    case BadType => Some(Meaning.Type)
    case BadEnum => Some(Meaning.Enum)
    case BadMinLength => Some(Meaning.MinLength)
    case BadMaxLength => Some(Meaning.MaxLength)
    case BadMinItems => Some(Meaning.MinItems)
    case BadPattern => Some(Meaning.Matching)
    case BadRequired => Some(Meaning.Required)
    case PropertiesForm => Some(Meaning.Fields)
    case AdditionalForm => Some(Meaning.OtherFields)
    case ItemsForm => Some(Meaning.Elements)
    case AnyOfForm => Some(Meaning.OneOf)
    case UnknownKeywords => Some(Meaning.Foreign)
    case _ => None
  }

  /** The form that a keyword asks of its value, apart from what the subschemas in it are asked. */
  predicate FormHere(p: Patterns, w: Meaning.Vocabulary, kw: Meaning.Keyword, c: Json) {
    match kw
    case Fields => c.Obj?
    case OtherFields => c.Obj? || c.Bool?
    case Elements => c.Obj?
    case OneOf => c.Arr? && c.items != []
    case _ => Meaning.FormOk(p, w, kw, c)
  }

  ghost predicate HasProblem(p: Patterns, w: Meaning.Vocabulary, doc: Json, kind: ProblemKind) {
    if !doc.Obj? then kind.NotASchema?
    else
      && KeywordOfProblem(kind).Some?
      && exists i | 0 <= i < |doc.keys| && i < |doc.items| ::
           && w.keyword(doc.keys[i]) == KeywordOfProblem(kind).value
           && !FormHere(p, w, KeywordOfProblem(kind).value, doc.items[i])
  }

  lemma HasProblemIs(p: Patterns, w: Meaning.Vocabulary, doc: Json, kind: ProblemKind, o: Option<Json>)
    requires KeywordOfProblem(kind).Some? && Meaning.Under(w, doc, KeywordOfProblem(kind).value, o)
    ensures HasProblem(p, w, doc, kind) <==> o.Some? && !FormHere(p, w, KeywordOfProblem(kind).value, o.value)
  {
  }

  /** What a document has under the keyword of a problem. */
  function UnderProblem(k: Keywords, kind: ProblemKind): Option<Json> {
    match kind
    case BadType => k.declared
    case BadEnum => k.enum_
    case BadMinLength => k.minLength
    case BadMaxLength => k.maxLength
    case BadMinItems => k.minItems
    case BadPattern => k.pattern
    case BadRequired => k.required
    case PropertiesForm => k.properties
    case AdditionalForm => k.additional
    case ItemsForm => k.items
    case AnyOfForm => k.anyOf
    case _ => None
  }

  /** The test that a problem reports. */
  predicate TestFails(p: Patterns, k: Keywords, kind: ProblemKind) {
    match kind
    case UnknownKeywords => k.unknown != []
    case BadType => k.declared.Some? && !TypeOk(k.declared.value)
    case BadEnum => k.enum_.Some? && !EnumOk(k.enum_.value)
    case BadMinLength => k.minLength.Some? && !Natural(k.minLength.value)
    case BadMaxLength => k.maxLength.Some? && !Natural(k.maxLength.value)
    case BadMinItems => k.minItems.Some? && !Natural(k.minItems.value)
    case BadPattern => k.pattern.Some? && !PatternOk(p, k.pattern.value)
    case BadRequired => k.required.Some? && !NameList(k.required.value)
    case PropertiesForm => k.properties.Some? && !k.properties.value.Obj?
    case AdditionalForm => k.additional.Some? && !k.additional.value.Obj? && !k.additional.value.Bool?
    case ItemsForm => k.items.Some? && !k.items.value.Obj?
    case AnyOfForm => k.anyOf.Some? && !EnumOk(k.anyOf.value)
    case _ => false
  }

  lemma ListsReport(p: Patterns, k: Keywords, at: string, x: Problem)
    ensures x in OwnLists(k, at) <==>
      x.location == at && (x.kind.UnknownKeywords? || x.kind.BadType? || x.kind.BadEnum?) && TestFails(p, k, x.kind)
  {
  }

  lemma BoundsReport(p: Patterns, k: Keywords, at: string, x: Problem)
    ensures x in OwnBounds(k, at) <==>
      && x.location == at && TestFails(p, k, x.kind)
      && (x.kind.BadMinLength? || x.kind.BadMaxLength? || x.kind.BadMinItems?)
  {
  }

  lemma NamesReport(p: Patterns, k: Keywords, at: string, x: Problem)
    ensures x in OwnNames(p, k, at) <==>
      x.location == at && (x.kind.BadPattern? || x.kind.BadRequired?) && TestFails(p, k, x.kind)
  {
  }

  lemma FormsReport(p: Patterns, k: Keywords, at: string, x: Problem)
    ensures x in OwnForms(k, at) <==>
      && x.location == at && TestFails(p, k, x.kind)
      && (x.kind.PropertiesForm? || x.kind.AdditionalForm? || x.kind.ItemsForm? || x.kind.AnyOfForm?)
  {
  }

  lemma OwnOfReports(p: Patterns, k: Keywords, at: string, x: Problem)
    ensures x in OwnOf(p, k, at) <==> x.location == at && TestFails(p, k, x.kind)
  {
    ListsReport(p, k, at, x);
    BoundsReport(p, k, at, x);
    NamesReport(p, k, at, x);
    FormsReport(p, k, at, x);
    InFour(OwnLists(k, at), OwnBounds(k, at), OwnNames(p, k, at), OwnForms(k, at), x);
  }

  lemma InFour(a: seq<Problem>, b: seq<Problem>, c: seq<Problem>, d: seq<Problem>, x: Problem)
    ensures x in a + b + c + d <==> x in a || x in b || x in c || x in d
  {
  }

  lemma TestExactly(p: Patterns, w: Meaning.Vocabulary, k: Keywords, kind: ProblemKind)
    requires (forall name :: Meaning.TypeAgrees(w, name)) && KeywordOfProblem(kind).Some? && !kind.UnknownKeywords?
    ensures TestFails(p, k, kind) <==>
      && UnderProblem(k, kind).Some?
      && !FormHere(p, w, KeywordOfProblem(kind).value, UnderProblem(k, kind).value)
  {
    if kind.BadType? && k.declared.Some? {
      TypesAreRead(k.declared.value);
      Meaning.TypesOkExactly(w, k.declared.value);
    }
  }

  /** A node is reported for a problem exactly when its document has the keyword in a form that is not interpreted. */
  lemma ProblemExactly(p: Patterns, e: Located, x: Problem)
    requires WellFormed(e.doc)
    ensures x in Own(p, e) <==> x.location == e.location && HasProblem(p, Meaning.WORDS, e.doc, x.kind)
  {
    if e.doc.Obj? {
      Meaning.KeywordsAreRead(e.doc);
      Meaning.AllTypesAgree();
      NodeProblemExactly(p, Meaning.WORDS, e.doc, KeywordsOf(e.doc), e.location, x);
    }
  }

  lemma NodeProblemExactly(p: Patterns, w: Meaning.Vocabulary, doc: Json, k: Keywords, at: string, x: Problem)
    requires Meaning.ReadAs(w, doc, k) && forall name :: Meaning.TypeAgrees(w, name)
    ensures x in OwnOf(p, k, at) <==> x.location == at && HasProblem(p, w, doc, x.kind)
  {
    OwnOfReports(p, k, at, x);
    KindMeans(p, w, doc, k, x.kind);
  }

  lemma KindMeans(p: Patterns, w: Meaning.Vocabulary, doc: Json, k: Keywords, kind: ProblemKind)
    requires Meaning.ReadAs(w, doc, k) && forall name :: Meaning.TypeAgrees(w, name)
    ensures TestFails(p, k, kind) <==> HasProblem(p, w, doc, kind)
  {
    if kind.UnknownKeywords? {
      ForeignIs(p, w, doc);
    } else if KeywordOfProblem(kind).Some? {
      FormMeans(p, w, doc, k, kind);
    }
  }

  lemma FormMeans(p: Patterns, w: Meaning.Vocabulary, doc: Json, k: Keywords, kind: ProblemKind)
    requires Meaning.ReadAs(w, doc, k) && forall name :: Meaning.TypeAgrees(w, name)
    requires KeywordOfProblem(kind).Some? && !kind.UnknownKeywords?
    ensures TestFails(p, k, kind) <==> HasProblem(p, w, doc, kind)
  {
    ProblemUnder(w, doc, k, kind);
    HasProblemIs(p, w, doc, kind, UnderProblem(k, kind));
    TestExactly(p, w, k, kind);
  }

  lemma ProblemUnder(w: Meaning.Vocabulary, doc: Json, k: Keywords, kind: ProblemKind)
    requires Meaning.ReadAs(w, doc, k) && KeywordOfProblem(kind).Some? && !kind.UnknownKeywords?
    ensures Meaning.Under(w, doc, KeywordOfProblem(kind).value, UnderProblem(k, kind))
  {
  }

  lemma ForeignIs(p: Patterns, w: Meaning.Vocabulary, doc: Json)
    requires doc.Obj? && |doc.keys| == |doc.items|
    ensures HasProblem(p, w, doc, UnknownKeywords) <==> !Meaning.NoForeign(w, doc)
  {
    if !Meaning.NoForeign(w, doc) {
      var i :| 0 <= i < |doc.keys| && w.keyword(doc.keys[i]) == Meaning.Foreign;
      assert !FormHere(p, w, Meaning.Foreign, doc.items[i]);
    }
  }
}
