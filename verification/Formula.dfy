/** scripts/claim_proof_bundle_checker.py, derivation formulas: `_evaluate_formula` over exact reals and
    `_check_formula_dimensions`, from the parsed expression on. */
module Formula {
  import opened Bytes

  datatype BinaryOp = Add | Sub | Mul | Div | OtherBinary
  datatype UnaryOp = Plus | Minus | OtherUnary

  /** `Number(None)` is a constant that is no finite number; `Unsupported` any other syntax. */
  datatype Expr =
    | Binary(op: BinaryOp, left: Expr, right: Expr)
    | Unary(uop: UnaryOp, operand: Expr)
    | Number(value: Option<real>)
    | Name(id: string)
    | Unsupported

  datatype Refusal = DividesByZero | NotFinite | UnknownInput | UnsupportedSyntax | NoInput | UnitMismatch

  datatype Value = Real(v: real) | Error(why: Refusal)

  function Apply(op: BinaryOp, a: real, b: real): Value
    requires !op.OtherBinary?
  {
    if op.Add? then Real(a + b)
    else if op.Sub? then Real(a - b)
    else if op.Mul? then Real(a * b)
    else if b == 0.0 then Error(DividesByZero)
    else Real(a / b)
  }

  function Negate(a: Value): Value {
    if a.Real? then Real(-a.v) else a
  }

  /** The left operand's error comes first. */
  function Join(op: BinaryOp, left: Value, right: Value): Value
    requires !op.OtherBinary?
  {
    if left.Error? then left else if right.Error? then right else Apply(op, left.v, right.v)
  }

  function Evaluate(e: Expr, inputs: map<string, real>): Value {
    match e
    case Binary(op, l, r) =>
      if op.OtherBinary? then Error(UnsupportedSyntax) else
      Join(op, Evaluate(l, inputs), Evaluate(r, inputs))
    case Unary(op, a) =>
      if op.OtherUnary? then Error(UnsupportedSyntax) else
      if op.Minus? then Negate(Evaluate(a, inputs)) else Evaluate(a, inputs)
    case Number(v) => if v.Some? then Real(v.value) else Error(NotFinite)
    case Name(id) => if id in inputs then Real(inputs[id]) else Error(UnknownInput)
    case Unsupported => Error(UnsupportedSyntax)
  }

  predicate NamesAnInput(e: Expr) {
    match e
    case Binary(_, l, r) => NamesAnInput(l) || NamesAnInput(r)
    case Unary(_, a) => NamesAnInput(a)
    case Name(_) => true
    case _ => false
  }

  /** `_evaluate_formula`: a formula must name at least one recorded input. */
  function EvaluateFormula(e: Expr, inputs: map<string, real>): Value {
    if !NamesAnInput(e) then Error(NoInput) else Evaluate(e, inputs)
  }

  // ---------------------------------------------------------------- units

  /** The unit of each recorded input, and the registered units that count entities. */
  datatype Units = Units(of: map<string, string>, counts: set<string>)

  datatype Dim = Dim(exponents: map<string, int>, kind: Option<string>)

  function UnitDimension(unit: string, counts: set<string>): Dim {
    if unit in counts then Dim(map[], Some(unit)) else Dim(map[unit := 1], None)
  }

  function Exponent(m: map<string, int>, unit: string): int {
    if unit in m then m[unit] else 0
  }

  /** `out[unit] += sign * power` for each unit of `b`, dropping what becomes zero. */
  function Combine(a: map<string, int>, b: map<string, int>, sign: int): map<string, int> {
    map u | u in a.Keys + b.Keys && (u in b ==> Exponent(a, u) + sign * b[u] != 0)
      :: Exponent(a, u) + sign * Exponent(b, u)
  }

  function Exponents(d: Option<Dim>): map<string, int> {
    if d.None? then map[] else d.value.exponents
  }

  /** The dimension of a node; `None` is a bare number. */
  function Dimension(e: Expr, units: Units): Result<Option<Dim>, Refusal> {
    match e
    case Binary(op, l, r) =>
      var left := Dimension(l, units);
      if left.Refused? then left else
      var right := Dimension(r, units);
      if right.Refused? then right else
      if op.Add? || op.Sub? then
        if left.value.None? then right
        else if right.value.None? then left
        else if left.value != right.value then Refused(UnitMismatch)
        else left
      else if left.value.None? && right.value.None? then Ok(None)
      else
        var exponents := Combine(Exponents(left.value), Exponents(right.value), if op.Mul? then 1 else -1);
        if exponents != map[] then Ok(Some(Dim(exponents, None)))
        else if left.value.None? then Ok(Some(Dim(map[], right.value.value.kind)))
        else if right.value.None? then Ok(Some(Dim(map[], left.value.value.kind)))
        else Ok(Some(Dim(map[], None)))
    case Unary(_, a) => Dimension(a, units)
    case Name(id) =>
      if id in units.of then Ok(Some(UnitDimension(units.of[id], units.counts))) else Refused(UnknownInput)
    case _ => Ok(None)
  }

  predicate UnitsCheck(e: Expr, units: Units, resultUnit: string) {
    var d := Dimension(e, units);
    d.Ok? && (d.value.Some? ==> d.value.value == UnitDimension(resultUnit, units.counts))
  }

  // ---------------------------------------------------------------- integer powers of a factor

  function Pow(x: real, k: int): real
    requires x != 0.0
    decreases if k >= 0 then k else -k
  {
    if k == 0 then 1.0 else if k > 0 then x * Pow(x, k - 1) else Pow(x, k + 1) / x
  }

  ghost predicate StepsAt(p: int -> real, x: real, k: int) {
    p(k + 1) == x * p(k)
  }

  /** `p(k)` is the `k`-th power of `x`, for every integer `k`. */
  ghost predicate Powers(p: int -> real, x: real) {
    x != 0.0 && p(0) == 1.0 && forall k :: StepsAt(p, x, k)
  }

  lemma PowStep(x: real, k: int)
    requires x != 0.0
    ensures Pow(x, k + 1) == x * Pow(x, k)
  {
  }

  lemma PowersExist(x: real) returns (p: int -> real)
    requires x != 0.0
    ensures Powers(p, x)
  {
    p := (k: int) => Pow(x, k);
    forall k ensures StepsAt(p, x, k) {
      PowStep(x, k);
    }
  }

  lemma {:induction false} PowersAdd(p: int -> real, x: real, a: int, b: int)
    requires Powers(p, x)
    ensures p(a + b) == p(a) * p(b)
    decreases if b >= 0 then b else -b
  {
    if b > 0 {
      PowersAdd(p, x, a, b - 1);
      assert StepsAt(p, x, a + b - 1) && StepsAt(p, x, b - 1);
      StepUp(x, p(a), p(b - 1), p(a + b - 1), p(b), p(a + b));
    } else if b < 0 {
      PowersAdd(p, x, a, b + 1);
      assert StepsAt(p, x, a + b) && StepsAt(p, x, b);
      StepDown(x, p(a), p(b), p(a + b), p(b + 1), p(a + b + 1));
    }
  }

  lemma StepUp(x: real, a: real, b: real, ab: real, b': real, ab': real)
    requires ab == a * b && b' == x * b && ab' == x * ab
    ensures ab' == a * b'
  {
    assert x * (a * b) == a * (x * b);
  }

  lemma StepDown(x: real, a: real, b: real, ab: real, b': real, ab': real)
    requires x != 0.0 && b' == x * b && ab' == x * ab && ab' == a * b'
    ensures ab == a * b
  {
    StepUp(x, a, b, a * b, b', x * (a * b));
    Cancel(x, ab, a * b);
  }

  lemma PowersNonzero(p: int -> real, x: real, k: int)
    requires Powers(p, x)
    ensures p(k) != 0.0
  {
    PowersAdd(p, x, k, -k);
  }

  lemma FirstPower(p: int -> real, x: real)
    requires Powers(p, x)
    ensures p(1) == x
  {
    assert StepsAt(p, x, 0);
  }

  lemma Cancel(x: real, a: real, b: real)
    requires x != 0.0 && x * a == x * b
    ensures a == b
  {
    assert x * (a - b) == 0.0;
  }

  /** No power of two but the zeroth is one. */
  lemma {:induction false} PowersOfTwo(p: int -> real, k: int)
    requires Powers(p, 2.0)
    ensures k > 0 ==> p(k) > 1.0
    ensures k < 0 ==> 0.0 < p(k) < 1.0
    decreases if k >= 0 then k else -k
  {
    if k > 0 {
      PowersOfTwo(p, k - 1);
      assert StepsAt(p, 2.0, k - 1);
    } else if k < 0 {
      PowersOfTwo(p, k + 1);
      assert StepsAt(p, 2.0, k);
    }
  }

  // ---------------------------------------------------------------- scaling

  function Scaled(inputs: map<string, real>, units: Units, unit: string, x: real): map<string, real> {
    map n | n in inputs :: if n in units.of && units.of[n] == unit then x * inputs[n] else inputs[n]
  }

  /** The exponent of `unit` in a dimension; zero for a bare number. */
  function Degree(d: Option<Dim>, unit: string): int {
    Exponent(Exponents(d), unit)
  }

  function Times(factor: real, r: Value): Value {
    if r.Real? then Real(factor * r.v) else r
  }

  /** What the unit checker lets through and scaling does not: a bare number other than zero added to or
      subtracted from a term measured in `unit`. */
  predicate OffsetsUnit(bare: Expr, united: Expr, units: Units, unit: string) {
    && Dimension(bare, units) == Ok(None)
    && Dimension(united, units).Ok? && Degree(Dimension(united, units).value, unit) != 0
    && Evaluate(bare, map[]).Real? && Evaluate(bare, map[]).v != 0.0
  }

  /** No sum anywhere in the formula offsets a term in `unit` by a bare number. */
  predicate NoOffset(e: Expr, units: Units, unit: string) {
    match e
    case Binary(op, l, r) =>
      && NoOffset(l, units, unit) && NoOffset(r, units, unit)
      && (op.Add? || op.Sub? ==> !OffsetsUnit(l, r, units, unit) && !OffsetsUnit(r, l, units, unit))
    case Unary(_, a) => NoOffset(a, units, unit)
    case _ => true
  }

  lemma {:induction false} BareNumbersNameNothing(e: Expr, units: Units)
    requires Dimension(e, units).Ok?
    ensures Dimension(e, units).value.None? <==> !NamesAnInput(e)
  {
    match e
    case Binary(_, l, r) =>
      BareNumbersNameNothing(l, units);
      BareNumbersNameNothing(r, units);
    case Unary(_, a) => BareNumbersNameNothing(a, units);
    case _ =>
  }

  lemma {:induction false} NameFreeIsConstant(e: Expr, a: map<string, real>, b: map<string, real>)
    requires !NamesAnInput(e)
    ensures Evaluate(e, a) == Evaluate(e, b)
  {
    match e
    case Binary(_, l, r) =>
      NameFreeIsConstant(l, a, b);
      NameFreeIsConstant(r, a, b);
    case Unary(_, x) => NameFreeIsConstant(x, a, b);
    case _ =>
  }

  lemma ProductScales(f: real, g: real, h: real, a: real, b: real, p: real)
    requires h == f * g && p == a * b
    ensures (f * a) * (g * b) == h * p
  {
    assert (f * a) * (g * b) == f * (a * (g * b));
    assert a * (g * b) == g * p;
    assert f * (g * p) == h * p;
  }

  lemma QuotientScales(f: real, g: real, h: real, a: real, b: real, q: real)
    requires g != 0.0 && b != 0.0 && h * g == f && q == a / b
    ensures g * b != 0.0 && (f * a) / (g * b) == h * q
  {
    assert q * b == a;
    ProductScales(h, g, f, q, b, a);
    if g * b == 0.0 {
      Cancel(g, b, 0.0);
    }
    Divide(f * a, g * b, h * q);
  }

  lemma Divide(n: real, d: real, q: real)
    requires d != 0.0 && q * d == n
    ensures n / d == q
  {
  }

  /** Scaling turns the value of `e` into `f` times it, or refuses it as before. */
  predicate Scales(e: Expr, f: real, inputs: map<string, real>, after: map<string, real>) {
    Evaluate(e, after) == Times(f, Evaluate(e, inputs))
  }

  lemma SumCase(op: BinaryOp, f: real, a: Value, b: Value)
    requires op.Add? || op.Sub?
    ensures Join(op, Times(f, a), Times(f, b)) == Times(f, Join(op, a, b))
  {
    if a.Real? && b.Real? {
      if op.Add? {
        Distributes(f, a.v, b.v, Join(op, a, b).v);
      } else {
        Distributes(f, Join(op, a, b).v, b.v, a.v);
      }
    }
  }

  lemma ProductCase(f: real, g: real, h: real, a: Value, b: Value)
    requires h == f * g
    ensures Join(Mul, Times(f, a), Times(g, b)) == Times(h, Join(Mul, a, b))
  {
    if a.Real? && b.Real? {
      ProductScales(f, g, h, a.v, b.v, Join(Mul, a, b).v);
    }
  }

  lemma QuotientCase(f: real, g: real, h: real, a: Value, b: Value)
    requires g != 0.0 && h * g == f
    ensures Join(Div, Times(f, a), Times(g, b)) == Times(h, Join(Div, a, b))
  {
    if a.Real? && b.Real? {
      QuotientValues(f, g, h, a.v, b.v);
    }
  }

  lemma QuotientValues(f: real, g: real, h: real, a: real, b: real)
    requires g != 0.0 && h * g == f
    ensures Apply(Div, f * a, g * b) == Times(h, Apply(Div, a, b))
  {
    if b == 0.0 {
      assert g * b == 0.0;
    } else {
      QuotientScales(f, g, h, a, b, a / b);
    }
  }

  lemma PowerCase(op: BinaryOp, p: int -> real, x: real, j: int, k: int, a: Value, b: Value)
    requires (op.Mul? || op.Div?) && Powers(p, x)
    ensures Join(op, Times(p(j), a), Times(p(k), b)) ==
            Times(p(if op.Mul? then j + k else j - k), Join(op, a, b))
  {
    if op.Mul? {
      PowersAdd(p, x, j, k);
      ProductCase(p(j), p(k), p(j + k), a, b);
    } else {
      PowersNonzero(p, x, k);
      PowersAdd(p, x, j - k, k);
      QuotientCase(p(j), p(k), p(j - k), a, b);
    }
  }

  lemma NegationCase(f: real, a: Value)
    ensures Negate(Times(f, a)) == Times(f, Negate(a))
  {
    if a.Real? {
      Distributes(f, a.v, Negate(a).v, 0.0);
    }
  }

  lemma CombineDegrees(a: map<string, int>, b: map<string, int>, sign: int, unit: string)
    ensures Exponent(Combine(a, b, sign), unit) == Exponent(a, unit) + sign * Exponent(b, unit)
  {
  }

  /** The degree of a product or quotient. */
  lemma ProductDegree(op: BinaryOp, l: Expr, r: Expr, units: Units, unit: string)
    requires (op.Mul? || op.Div?) && Dimension(Binary(op, l, r), units).Ok?
    ensures Dimension(l, units).Ok? && Dimension(r, units).Ok?
    ensures var j, k := Degree(Dimension(l, units).value, unit), Degree(Dimension(r, units).value, unit);
            Degree(Dimension(Binary(op, l, r), units).value, unit) == if op.Mul? then j + k else j - k
  {
    var a, b := Exponents(Dimension(l, units).value), Exponents(Dimension(r, units).value);
    CombineDegrees(a, b, if op.Mul? then 1 else -1, unit);
  }

  lemma SumHomogeneous(
    op: BinaryOp, l: Expr, r: Expr, units: Units, unit: string,
    inputs: map<string, real>, after: map<string, real>, p: int -> real)
    requires (op.Add? || op.Sub?) && p(0) == 1.0
    requires Dimension(Binary(op, l, r), units).Ok? && NoOffset(Binary(op, l, r), units, unit)
    requires Scales(l, p(Degree(Dimension(l, units).value, unit)), inputs, after)
    requires Scales(r, p(Degree(Dimension(r, units).value, unit)), inputs, after)
    ensures Scales(Binary(op, l, r), p(Degree(Dimension(Binary(op, l, r), units).value, unit)), inputs, after)
  {
    var d := Degree(Dimension(Binary(op, l, r), units).value, unit);
    AdoptsDegree(l, r, inputs, units, unit, after, p, d);
    AdoptsDegree(r, l, inputs, units, unit, after, p, d);
    SumCase(op, p(d), Evaluate(l, inputs), Evaluate(r, inputs));
  }

  /** An operand of a sum scales like the sum: it has its degree, or it is a bare zero. */
  lemma AdoptsDegree(
    e: Expr, other: Expr, inputs: map<string, real>, units: Units, unit: string,
    after: map<string, real>, p: int -> real, d: int)
    requires p(0) == 1.0 && Dimension(e, units).Ok? && Dimension(other, units).Ok?
    requires Scales(e, p(Degree(Dimension(e, units).value, unit)), inputs, after)
    requires !OffsetsUnit(e, other, units, unit)
    requires if Dimension(e, units).value.None? then d == Degree(Dimension(other, units).value, unit)
             else d == Degree(Dimension(e, units).value, unit)
    ensures Scales(e, p(d), inputs, after)
  {
    if Dimension(e, units).value.None? && d != 0 {
      BareNumbersNameNothing(e, units);
      NameFreeIsConstant(e, inputs, map[]);
      NameFreeIsConstant(e, after, map[]);
      ZeroScales(p(d), Evaluate(e, map[]));
    }
  }

  lemma ZeroScales(f: real, v: Value)
    requires v.Real? ==> v.v == 0.0
    ensures Times(f, v) == v
  {
  }

  lemma ProductHomogeneous(
    op: BinaryOp, l: Expr, r: Expr, units: Units, unit: string,
    inputs: map<string, real>, after: map<string, real>, x: real, p: int -> real)
    requires (op.Mul? || op.Div?) && Powers(p, x)
    requires Dimension(Binary(op, l, r), units).Ok?
    requires Scales(l, p(Degree(Dimension(l, units).value, unit)), inputs, after)
    requires Scales(r, p(Degree(Dimension(r, units).value, unit)), inputs, after)
    ensures Scales(Binary(op, l, r), p(Degree(Dimension(Binary(op, l, r), units).value, unit)), inputs, after)
  {
    ProductDegree(op, l, r, units, unit);
    var j, k := Degree(Dimension(l, units).value, unit), Degree(Dimension(r, units).value, unit);
    PowerCase(op, p, x, j, k, Evaluate(l, inputs), Evaluate(r, inputs));
  }

  /** Scaling every input in `unit` by `x` multiplies the value of each subformula by the power of `x`
      its dimension names, and refuses what was refused, division by zero included. */
  lemma {:induction false} Homogeneous(
    e: Expr, inputs: map<string, real>, units: Units, unit: string, x: real, p: int -> real)
    requires Powers(p, x) && unit !in units.counts
    requires Dimension(e, units).Ok? && NoOffset(e, units, unit)
    ensures Scales(e, p(Degree(Dimension(e, units).value, unit)), inputs, Scaled(inputs, units, unit, x))
  {
    match e
    case Binary(op, l, r) =>
      if !op.OtherBinary? {
        Homogeneous(l, inputs, units, unit, x, p);
        Homogeneous(r, inputs, units, unit, x, p);
        if op.Add? || op.Sub? {
          SumHomogeneous(op, l, r, units, unit, inputs, Scaled(inputs, units, unit, x), p);
        } else {
          ProductHomogeneous(op, l, r, units, unit, inputs, Scaled(inputs, units, unit, x), x, p);
        }
      }
    case Unary(op, a) =>
      Homogeneous(a, inputs, units, unit, x, p);
      NegationCase(p(Degree(Dimension(a, units).value, unit)), Evaluate(a, inputs));
    case Name(id) => FirstPower(p, x);
    case _ =>
  }

  /** A formula that evaluates and passes the unit check, and offsets no term in `unit` by a bare number:
      scaling all inputs in the result unit by `x` scales the result by `x`, scaling all inputs in any
      other unit leaves it alone, and neither turns a value into a refusal or back. */
  lemma UnitSoundness(
    e: Expr, inputs: map<string, real>, units: Units, resultUnit: string, unit: string, x: real)
    requires x != 0.0 && unit !in units.counts
    requires UnitsCheck(e, units, resultUnit) && NoOffset(e, units, unit)
    ensures EvaluateFormula(e, Scaled(inputs, units, unit, x)) ==
            if unit == resultUnit then Times(x, EvaluateFormula(e, inputs)) else EvaluateFormula(e, inputs)
  {
    if NamesAnInput(e) {
      var p := PowersExist(x);
      Homogeneous(e, inputs, units, unit, x, p);
      BareNumbersNameNothing(e, units);
      FirstPower(p, x);
    }
  }

  // ---------------------------------------------------------------- where the law fails

  /** For a sum of two operands that scale, the law holds for every factor and all inputs exactly when
      neither operand offsets the other. */
  lemma OffsetExactly(op: BinaryOp, l: Expr, r: Expr, units: Units, unit: string, inputs: map<string, real>)
    requires (op.Add? || op.Sub?) && unit !in units.counts
    requires NoOffset(l, units, unit) && NoOffset(r, units, unit)
    requires Dimension(Binary(op, l, r), units).Ok? && Evaluate(Binary(op, l, r), inputs).Real?
    ensures (forall x, p :: Powers(p, x) ==>
              Scales(Binary(op, l, r), p(Degree(Dimension(Binary(op, l, r), units).value, unit)),
                     inputs, Scaled(inputs, units, unit, x)))
            <==> !OffsetsUnit(l, r, units, unit) && !OffsetsUnit(r, l, units, unit)
  {
    var e := Binary(op, l, r);
    var d := Degree(Dimension(e, units).value, unit);
    if OffsetsUnit(l, r, units, unit) || OffsetsUnit(r, l, units, unit) {
      var p := PowersExist(2.0);
      PowersOfTwo(p, d);
      OffsetBreaks(op, l, r, units, unit, inputs, p);
    } else {
      forall x, p | Powers(p, x) ensures Scales(e, p(d), inputs, Scaled(inputs, units, unit, x)) {
        Homogeneous(e, inputs, units, unit, x, p);
      }
    }
  }

  lemma OffsetBreaks(
    op: BinaryOp, l: Expr, r: Expr, units: Units, unit: string, inputs: map<string, real>, p: int -> real)
    requires (op.Add? || op.Sub?) && unit !in units.counts && Powers(p, 2.0)
    requires NoOffset(l, units, unit) && NoOffset(r, units, unit)
    requires Dimension(Binary(op, l, r), units).Ok? && Evaluate(Binary(op, l, r), inputs).Real?
    requires OffsetsUnit(l, r, units, unit) || OffsetsUnit(r, l, units, unit)
    requires p(Degree(Dimension(Binary(op, l, r), units).value, unit)) != 1.0
    ensures !Scales(Binary(op, l, r), p(Degree(Dimension(Binary(op, l, r), units).value, unit)),
                    inputs, Scaled(inputs, units, unit, 2.0))
  {
    Homogeneous(l, inputs, units, unit, 2.0, p);
    Homogeneous(r, inputs, units, unit, 2.0, p);
    var f := p(Degree(Dimension(Binary(op, l, r), units).value, unit));
    var a, b := Evaluate(l, inputs), Evaluate(r, inputs);
    if OffsetsUnit(l, r, units, unit) {
      BareNumbersNameNothing(l, units);
      NameFreeIsConstant(l, inputs, map[]);
      OffsetLeft(op, f, a, b);
    } else {
      BareNumbersNameNothing(r, units);
      NameFreeIsConstant(r, inputs, map[]);
      OffsetRight(op, f, a, b);
    }
  }

  lemma OffsetLeft(op: BinaryOp, f: real, a: Value, b: Value)
    requires (op.Add? || op.Sub?) && a.Real? && b.Real? && f != 1.0 && a.v != 0.0
    ensures Join(op, Times(1.0, a), Times(f, b)) != Times(f, Join(op, a, b))
  {
    var s := Join(op, a, b);
    Gap(op, f, a.v, b.v, s.v, Times(f, a).v, Times(f, b).v, Times(f, s).v);
    assert Times(1.0, a) == a;
  }

  lemma OffsetRight(op: BinaryOp, f: real, a: Value, b: Value)
    requires (op.Add? || op.Sub?) && a.Real? && b.Real? && f != 1.0 && b.v != 0.0
    ensures Join(op, Times(f, a), Times(1.0, b)) != Times(f, Join(op, a, b))
  {
    var s := Join(op, a, b);
    Gap(op, f, a.v, b.v, s.v, Times(f, a).v, Times(f, b).v, Times(f, s).v);
    assert Times(1.0, b) == b;
  }

  lemma Gap(op: BinaryOp, f: real, a: real, b: real, s: real, fa: real, fb: real, fs: real)
    requires (op.Add? || op.Sub?) && f != 1.0
    requires s == if op.Add? then a + b else a - b
    requires fa == f * a && fb == f * b && fs == f * s
    ensures a != 0.0 ==> fs != if op.Add? then a + fb else a - fb
    ensures b != 0.0 ==> fs != if op.Add? then fa + b else fa - b
  {
    if op.Add? {
      Distributes(f, a, b, s);
    } else {
      Distributes(f, s, b, a);
    }
    if a != 0.0 {
      Moves(f, a);
    }
    if b != 0.0 {
      Moves(f, b);
    }
    Displaced(op, a, b, fa, fb, fs);
  }

  lemma Displaced(op: BinaryOp, a: real, b: real, fa: real, fb: real, fs: real)
    requires op.Add? || op.Sub?
    requires fs == if op.Add? then fa + fb else fa - fb
    ensures fa != a ==> fs != if op.Add? then a + fb else a - fb
    ensures fb != b ==> fs != if op.Add? then fa + b else fa - b
  {
  }

  lemma Distributes(f: real, a: real, b: real, s: real)
    requires s == a + b
    ensures f * s == f * a + f * b
  {
  }

  lemma Moves(f: real, a: real)
    requires f != 1.0 && a != 0.0
    ensures f * a != a
  {
    if (f - 1.0) * a == 0.0 {
      Cancel(a, f - 1.0, 0.0);
    }
    assert (f - 1.0) * a == f * a - a;
  }

  /** The unit checker accepts `x + 1` in any unit; doubling `x` does not double it. */
  lemma BareOffsetIsAccepted(unit: string)
    ensures var e, units := Binary(Add, Name("x"), Number(Some(1.0))), Units(map["x" := unit], {});
            && UnitsCheck(e, units, unit)
            && EvaluateFormula(e, map["x" := 1.0]) == Real(2.0)
            && EvaluateFormula(e, Scaled(map["x" := 1.0], units, unit, 2.0)) == Real(3.0)
  {
    var e, units := Binary(Add, Name("x"), Number(Some(1.0))), Units(map["x" := unit], {});
    var after := Scaled(map["x" := 1.0], units, unit, 2.0);
    assert after == map["x" := 2.0];
    assert Dimension(Number(Some(1.0)), units) == Ok(None);
    assert Evaluate(e, after) == Join(Add, Evaluate(Name("x"), after), Evaluate(Number(Some(1.0)), after));
    assert Evaluate(Name("x"), map["x" := 1.0]) == Real(1.0);
  }
}
