/** What a derivation formula means: a relation between formula, inputs and value that has one clause for each
    operation and names no order of computing, the refusals with their order, and the laws of arithmetic. */
module FormulaLaws {
  import opened Bytes
  import opened Formula

  // ---------------------------------------------------------------- values

  /** `v` is the sum, the difference, the product or the quotient of `a` and `b`. */
  predicate Relates(op: BinaryOp, a: real, b: real, v: real) {
    match op
    case Add => v == a + b
    case Sub => v + b == a
    case Mul => v == a * b
    case Div => b != 0.0 && v * b == a
    case OtherBinary => false
  }

  ghost predicate Means(e: Expr, inputs: map<string, real>, v: real) {
    match e
    case Binary(op, l, r) => exists a, b :: Means(l, inputs, a) && Means(r, inputs, b) && Relates(op, a, b, v)
    case Unary(Plus, a) => Means(a, inputs, v)
    case Unary(Minus, a) => Means(a, inputs, -v)
    case Unary(OtherUnary, _) => false
    case Number(c) => c == Some(v)
    case Name(id) => id in inputs && inputs[id] == v
    case Unsupported => false
  }

  /** The refusals, the left operand's before the right one's, and that of the operation after both. */
  ghost predicate Refuses(e: Expr, inputs: map<string, real>, why: Refusal) {
    match e
    case Binary(op, l, r) =>
      if op.OtherBinary? then why == UnsupportedSyntax
      else
        || Refuses(l, inputs, why)
        || (HasValue(l, inputs) && Refuses(r, inputs, why))
        || (op.Div? && HasValue(l, inputs) && Means(r, inputs, 0.0) && why == DividesByZero)
    case Unary(op, a) => if op.OtherUnary? then why == UnsupportedSyntax else Refuses(a, inputs, why)
    case Number(c) => c.None? && why == NotFinite
    case Name(id) => id !in inputs && why == UnknownInput
    case Unsupported => why == UnsupportedSyntax
  }

  ghost predicate HasValue(e: Expr, inputs: map<string, real>) {
    exists v :: Means(e, inputs, v)
  }

  lemma AppliesExactly(op: BinaryOp, a: real, b: real, v: real)
    requires !op.OtherBinary?
    ensures Apply(op, a, b) == Real(v) <==> Relates(op, a, b, v)
    ensures Apply(op, a, b).Error? <==> op.Div? && b == 0.0
  {
    if op.Div? && b != 0.0 {
      assert (a / b) * b == a;
      if v * b == a {
        Divide(a, b, v);
      }
    }
  }

  /** A formula evaluates to exactly the value it means, and is refused for exactly the reason that comes first. */
  lemma {:induction false} EvaluatesExactly(e: Expr, inputs: map<string, real>)
    ensures forall v :: Evaluate(e, inputs) == Real(v) <==> Means(e, inputs, v)
    ensures forall why :: Evaluate(e, inputs) == Error(why) <==> Refuses(e, inputs, why)
  {
    match e
    case Binary(op, l, r) =>
      EvaluatesExactly(l, inputs);
      EvaluatesExactly(r, inputs);
      if !op.OtherBinary? {
        BinaryExactly(op, l, r, inputs);
      }
    case Unary(op, a) =>
      EvaluatesExactly(a, inputs);
    case _ =>
  }

  lemma BinaryExactly(op: BinaryOp, l: Expr, r: Expr, inputs: map<string, real>)
    requires !op.OtherBinary?
    requires forall v :: Evaluate(l, inputs) == Real(v) <==> Means(l, inputs, v)
    requires forall why :: Evaluate(l, inputs) == Error(why) <==> Refuses(l, inputs, why)
    requires forall v :: Evaluate(r, inputs) == Real(v) <==> Means(r, inputs, v)
    requires forall why :: Evaluate(r, inputs) == Error(why) <==> Refuses(r, inputs, why)
    ensures forall v :: Evaluate(Binary(op, l, r), inputs) == Real(v) <==> Means(Binary(op, l, r), inputs, v)
    ensures forall why :: Evaluate(Binary(op, l, r), inputs) == Error(why) <==> Refuses(Binary(op, l, r), inputs, why)
  {
    var a, b := Evaluate(l, inputs), Evaluate(r, inputs);
    if a.Real? && b.Real? {
      assert Means(l, inputs, a.v) && Means(r, inputs, b.v);
      forall v ensures Apply(op, a.v, b.v) == Real(v) <==> Relates(op, a.v, b.v, v) {
        AppliesExactly(op, a.v, b.v, v);
      }
    } else if a.Real? {
      assert Means(l, inputs, a.v) && Refuses(r, inputs, b.why);
    } else {
      assert Refuses(l, inputs, a.why);
    }
  }

  /** A whole formula: one that names no input is refused before anything is computed. */
  lemma FormulaExactly(e: Expr, inputs: map<string, real>)
    ensures forall v :: EvaluateFormula(e, inputs) == Real(v) <==> NamesAnInput(e) && Means(e, inputs, v)
    ensures forall why :: EvaluateFormula(e, inputs) == Error(why) <==>
      if NamesAnInput(e) then Refuses(e, inputs, why) else why == NoInput
  {
    EvaluatesExactly(e, inputs);
  }

  // ---------------------------------------------------------------- the laws of arithmetic

  const ZERO := Number(Some(0.0))
  const ONE := Number(Some(1.0))

  predicate Same(a: Expr, b: Expr, inputs: map<string, real>) {
    Evaluate(a, inputs) == Evaluate(b, inputs)
  }

  /** Zero and one change no formula, refused ones included. */
  lemma Neutral(l: Expr, inputs: map<string, real>)
    ensures Same(Binary(Add, l, ZERO), l, inputs) && Same(Binary(Add, ZERO, l), l, inputs)
    ensures Same(Binary(Sub, l, ZERO), l, inputs) && Same(Binary(Sub, ZERO, l), Unary(Minus, l), inputs)
    ensures Same(Binary(Mul, l, ONE), l, inputs) && Same(Binary(Mul, ONE, l), l, inputs)
    ensures Same(Binary(Div, l, ONE), l, inputs)
    ensures Same(Unary(Minus, Unary(Minus, l)), l, inputs) && Same(Unary(Plus, l), l, inputs)
  {
    assert Evaluate(ZERO, inputs) == Real(0.0) && Evaluate(ONE, inputs) == Real(1.0);
    if Evaluate(l, inputs).Real? {
      var a := Evaluate(l, inputs).v;
      assert a * 1.0 == a && 1.0 * a == a && a / 1.0 == a;
    }
  }

  /** Adding and multiplying do not look at the order of operands that evaluate, and differences are sums. */
  lemma Commutes(l: Expr, r: Expr, inputs: map<string, real>)
    requires Evaluate(l, inputs).Real? && Evaluate(r, inputs).Real?
    ensures Same(Binary(Add, l, r), Binary(Add, r, l), inputs)
    ensures Same(Binary(Mul, l, r), Binary(Mul, r, l), inputs)
    ensures Same(Binary(Sub, l, r), Unary(Minus, Binary(Sub, r, l)), inputs)
    ensures Same(Binary(Sub, l, r), Binary(Add, l, Unary(Minus, r)), inputs)
  {
  }

  lemma Computes(op: BinaryOp, l: Expr, r: Expr, inputs: map<string, real>, a: real, b: real, v: real)
    requires Evaluate(l, inputs) == Real(a) && Evaluate(r, inputs) == Real(b) && Relates(op, a, b, v)
    ensures Evaluate(Binary(op, l, r), inputs) == Real(v)
  {
    AppliesExactly(op, a, b, v);
  }

  lemma SumsAssociate(l: Expr, m: Expr, r: Expr, inputs: map<string, real>)
    requires Evaluate(l, inputs).Real? && Evaluate(m, inputs).Real? && Evaluate(r, inputs).Real?
    ensures Same(Binary(Add, Binary(Add, l, m), r), Binary(Add, l, Binary(Add, m, r)), inputs)
  {
    var a, b, c := Evaluate(l, inputs).v, Evaluate(m, inputs).v, Evaluate(r, inputs).v;
    Computes(Add, l, m, inputs, a, b, a + b);
    Computes(Add, m, r, inputs, b, c, b + c);
    Computes(Add, Binary(Add, l, m), r, inputs, a + b, c, a + b + c);
    Computes(Add, l, Binary(Add, m, r), inputs, a, b + c, a + b + c);
  }

  lemma ProductsAssociate(l: Expr, m: Expr, r: Expr, inputs: map<string, real>)
    requires Evaluate(l, inputs).Real? && Evaluate(m, inputs).Real? && Evaluate(r, inputs).Real?
    ensures Same(Binary(Mul, Binary(Mul, l, m), r), Binary(Mul, l, Binary(Mul, m, r)), inputs)
  {
    var a, b, c := Evaluate(l, inputs).v, Evaluate(m, inputs).v, Evaluate(r, inputs).v;
    var ab, bc, abc := ThreeFactors(a, b, c);
    Computes(Mul, l, m, inputs, a, b, ab);
    Computes(Mul, m, r, inputs, b, c, bc);
    Computes(Mul, Binary(Mul, l, m), r, inputs, ab, c, abc);
    Computes(Mul, l, Binary(Mul, m, r), inputs, a, bc, abc);
  }

  lemma ThreeFactors(a: real, b: real, c: real) returns (ab: real, bc: real, abc: real)
    ensures Relates(Mul, a, b, ab) && Relates(Mul, b, c, bc) && Relates(Mul, ab, c, abc) && Relates(Mul, a, bc, abc)
  {
    ab, bc, abc := a * b, b * c, a * b * c;
    assert a * b * c == a * (b * c);
  }

  /** Multiplying distributes over sums and differences. */
  lemma ProductsDistribute(op: BinaryOp, l: Expr, m: Expr, r: Expr, inputs: map<string, real>)
    requires op.Add? || op.Sub?
    requires Evaluate(l, inputs).Real? && Evaluate(m, inputs).Real? && Evaluate(r, inputs).Real?
    ensures Same(Binary(Mul, l, Binary(op, m, r)), Binary(op, Binary(Mul, l, m), Binary(Mul, l, r)), inputs)
  {
    var a, b, c := Evaluate(l, inputs).v, Evaluate(m, inputs).v, Evaluate(r, inputs).v;
    var s, ab, ac, as_ := FactorOfSum(op, a, b, c);
    Computes(op, m, r, inputs, b, c, s);
    Computes(Mul, l, m, inputs, a, b, ab);
    Computes(Mul, l, r, inputs, a, c, ac);
    Computes(Mul, l, Binary(op, m, r), inputs, a, s, as_);
    Computes(op, Binary(Mul, l, m), Binary(Mul, l, r), inputs, ab, ac, as_);
  }

  lemma FactorOfSum(op: BinaryOp, a: real, b: real, c: real) returns (s: real, ab: real, ac: real, as_: real)
    requires op.Add? || op.Sub?
    ensures Relates(op, b, c, s) && Relates(Mul, a, b, ab) && Relates(Mul, a, c, ac) && Relates(Mul, a, s, as_)
    ensures Relates(op, ab, ac, as_)
  {
    s := if op.Add? then b + c else b - c;
    ab, ac, as_ := a * b, a * c, a * s;
    if op.Add? {
      Distributes(a, b, c, s);
    } else {
      Distributes(a, s, c, b);
    }
  }

  /** Subtracting undoes adding, and what a negated formula is added to becomes zero. */
  lemma SumsAreUndone(l: Expr, r: Expr, inputs: map<string, real>)
    requires Evaluate(l, inputs).Real? && Evaluate(r, inputs).Real?
    ensures Same(Binary(Add, Binary(Sub, l, r), r), l, inputs)
    ensures Same(Binary(Sub, Binary(Add, l, r), r), l, inputs)
    ensures Same(Binary(Add, l, Unary(Minus, l)), ZERO, inputs)
  {
    var a, b := Evaluate(l, inputs).v, Evaluate(r, inputs).v;
    Computes(Sub, l, r, inputs, a, b, a - b);
    Computes(Add, l, r, inputs, a, b, a + b);
    Computes(Add, Binary(Sub, l, r), r, inputs, a - b, b, a);
    Computes(Sub, Binary(Add, l, r), r, inputs, a + b, b, a);
    Computes(Add, l, Unary(Minus, l), inputs, a, -a, 0.0);
  }

  /** Dividing undoes multiplying, and by zero it is refused. */
  lemma ProductsAreUndone(l: Expr, r: Expr, inputs: map<string, real>)
    requires Evaluate(l, inputs).Real? && Evaluate(r, inputs).Real?
    ensures Evaluate(r, inputs).v != 0.0 ==> Same(Binary(Mul, Binary(Div, l, r), r), l, inputs)
    ensures Evaluate(r, inputs).v != 0.0 ==> Same(Binary(Div, Binary(Mul, l, r), r), l, inputs)
    ensures Evaluate(r, inputs).v == 0.0 ==> Evaluate(Binary(Div, l, r), inputs) == Error(DividesByZero)
  {
    var a, b := Evaluate(l, inputs).v, Evaluate(r, inputs).v;
    if b != 0.0 {
      var q, m := QuotientAndProduct(a, b);
      Computes(Div, l, r, inputs, a, b, q);
      Computes(Mul, l, r, inputs, a, b, m);
      Computes(Mul, Binary(Div, l, r), r, inputs, q, b, a);
      Computes(Div, Binary(Mul, l, r), r, inputs, m, b, a);
    }
  }

  lemma QuotientAndProduct(a: real, b: real) returns (q: real, m: real)
    requires b != 0.0
    ensures Relates(Div, a, b, q) && Relates(Mul, a, b, m) && Relates(Mul, q, b, a) && Relates(Div, m, b, a)
  {
    q, m := a / b, a * b;
    assert (a / b) * b == a;
  }

  // ---------------------------------------------------------------- the names of a formula

  function Names(e: Expr): set<string> {
    match e
    case Binary(_, l, r) => Names(l) + Names(r)
    case Unary(_, a) => Names(a)
    case Name(id) => {id}
    case _ => {}
  }

  lemma {:induction false} NamesExactly(e: Expr)
    ensures NamesAnInput(e) <==> Names(e) != {}
  {
    match e
    case Binary(_, l, r) =>
      NamesExactly(l);
      NamesExactly(r);
      assert Names(e) == {} <==> Names(l) == {} && Names(r) == {};
    case Unary(_, a) => NamesExactly(a);
    case _ =>
  }

  predicate Agree(names: set<string>, a: map<string, real>, b: map<string, real>) {
    forall id :: id in names ==> (id in a <==> id in b) && (id in a && id in b ==> a[id] == b[id])
  }

  /** A formula looks at the inputs that it names and at no other. */
  lemma {:induction false} OnlyNamedInputsMatter(e: Expr, a: map<string, real>, b: map<string, real>)
    requires Agree(Names(e), a, b)
    ensures EvaluateFormula(e, a) == EvaluateFormula(e, b) && Evaluate(e, a) == Evaluate(e, b)
  {
    match e
    case Binary(_, l, r) =>
      OnlyNamedInputsMatter(l, a, b);
      OnlyNamedInputsMatter(r, a, b);
    case Unary(_, x) => OnlyNamedInputsMatter(x, a, b);
    case Name(id) => assert id in Names(e);
    case _ =>
  }
}
