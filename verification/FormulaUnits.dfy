/** What the unit checker decides, said unit by unit: the power of each unit in a formula, what a formula counts, and
    exactly which formulas pass. */
module FormulaUnits {
  import opened Bytes
  import opened Formula

  /** The power of a unit in a formula; a bare number takes the unit of what it is added to. */
  function DegreeIn(e: Expr, units: Units, unit: string): int {
    match e
    case Binary(op, l, r) =>
      if op.Add? || op.Sub? then if NamesAnInput(l) then DegreeIn(l, units, unit) else DegreeIn(r, units, unit)
      else if op.Mul? then DegreeIn(l, units, unit) + DegreeIn(r, units, unit)
      else DegreeIn(l, units, unit) - DegreeIn(r, units, unit)
    case Unary(_, a) => DegreeIn(a, units, unit)
    case Name(id) => if id in units.of && units.of[id] == unit && unit !in units.counts then 1 else 0
    case _ => 0
  }

  /** No unit is left. */
  ghost predicate Unitless(e: Expr, units: Units) {
    forall u :: DegreeIn(e, units, u) == 0
  }

  /** What a formula counts: an input in a counting unit, multiplied and divided by bare numbers only. */
  ghost function CountIn(e: Expr, units: Units): Option<string> {
    match e
    case Binary(op, l, r) =>
      if op.Add? || op.Sub? then if NamesAnInput(l) then CountIn(l, units) else CountIn(r, units)
      else if !Unitless(e, units) || (NamesAnInput(l) && NamesAnInput(r)) then None
      else if NamesAnInput(l) then CountIn(l, units)
      else CountIn(r, units)
    case Unary(_, a) => CountIn(a, units)
    case Name(id) => if id in units.of && units.of[id] in units.counts then Some(units.of[id]) else None
    case _ => None
  }

  ghost predicate SameUnits(l: Expr, r: Expr, units: Units) {
    (forall u :: DegreeIn(l, units, u) == DegreeIn(r, units, u)) && CountIn(l, units) == CountIn(r, units)
  }

  /** Every name is a recorded input, and wherever two terms that name inputs are added or subtracted, they have every
      unit to the same power and count the same. */
  ghost predicate Coherent(e: Expr, units: Units) {
    match e
    case Binary(op, l, r) =>
      && Coherent(l, units) && Coherent(r, units)
      && ((op.Add? || op.Sub?) && NamesAnInput(l) && NamesAnInput(r) ==> SameUnits(l, r, units))
    case Unary(_, a) => Coherent(a, units)
    case Name(id) => id in units.of
    case _ => true
  }

  /** A dimension holds the powers that are not zero, and the count. */
  ghost predicate Describes(d: Dim, e: Expr, units: Units) {
    && (forall u :: Exponent(d.exponents, u) == DegreeIn(e, units, u))
    && (forall u :: u in d.exponents ==> d.exponents[u] != 0)
    && d.kind == CountIn(e, units)
  }

  lemma SameExponents(a: map<string, int>, b: map<string, int>)
    requires forall u :: u in a ==> a[u] != 0
    requires forall u :: u in b ==> b[u] != 0
    ensures a == b <==> forall u :: Exponent(a, u) == Exponent(b, u)
  {
    if forall u :: Exponent(a, u) == Exponent(b, u) {
      forall u ensures u in a <==> u in b {
        assert Exponent(a, u) == Exponent(b, u);
      }
      forall u | u in a ensures a[u] == b[u] {
        assert Exponent(a, u) == Exponent(b, u);
      }
    }
  }

  lemma NothingLeft(a: map<string, int>)
    requires forall u :: u in a ==> a[u] != 0
    ensures a == map[] <==> forall u :: Exponent(a, u) == 0
  {
    SameExponents(a, map[]);
  }

  lemma CombineKeepsNonzero(a: map<string, int>, b: map<string, int>, sign: int)
    requires (forall u :: u in a ==> a[u] != 0) && (sign == 1 || sign == -1)
    ensures forall u :: u in Combine(a, b, sign) ==> Combine(a, b, sign)[u] != 0
  {
  }

  lemma {:induction false} BareHasNoUnit(e: Expr, units: Units, u: string)
    requires !NamesAnInput(e)
    ensures DegreeIn(e, units, u) == 0 && CountIn(e, units) == None
  {
    match e
    case Binary(op, l, r) =>
      BareHasNoUnit(l, units, u);
      BareHasNoUnit(r, units, u);
    case Unary(_, a) => BareHasNoUnit(a, units, u);
    case _ =>
  }

  /** A dimension, or that of a bare number, describes an operand. */
  ghost predicate Holds(d: Option<Dim>, e: Expr, units: Units) {
    && (d.Some? <==> NamesAnInput(e))
    && (d.Some? ==> Describes(d.value, e, units))
  }

  lemma BareOrDescribed(d: Option<Dim>, e: Expr, units: Units)
    requires Holds(d, e, units)
    ensures forall u :: Exponent(Exponents(d), u) == DegreeIn(e, units, u)
    ensures forall u :: u in Exponents(d) ==> Exponents(d)[u] != 0
    ensures (if d.None? then None else d.value.kind) == CountIn(e, units)
  {
    if d.None? {
      forall u ensures DegreeIn(e, units, u) == 0 && CountIn(e, units) == None {
        BareHasNoUnit(e, units, u);
      }
      BareHasNoUnit(e, units, "");
    }
  }

  lemma SameDimension(a: Dim, b: Dim, l: Expr, r: Expr, units: Units)
    requires Describes(a, l, units) && Describes(b, r, units)
    ensures a == b <==> SameUnits(l, r, units)
  {
    SameExponents(a.exponents, b.exponents);
    if SameUnits(l, r, units) {
      forall u ensures Exponent(a.exponents, u) == Exponent(b.exponents, u) {
        assert DegreeIn(l, units, u) == DegreeIn(r, units, u);
      }
    }
    if a == b {
      forall u ensures DegreeIn(l, units, u) == DegreeIn(r, units, u) {
        assert Exponent(a.exponents, u) == DegreeIn(l, units, u);
      }
    }
  }

  lemma ProductReads(op: BinaryOp, l: Expr, r: Expr, units: Units, left: Option<Dim>, right: Option<Dim>)
    requires !op.Add? && !op.Sub? && Holds(left, l, units) && Holds(right, r, units)
    requires Dimension(l, units) == Ok(left) && Dimension(r, units) == Ok(right)
    ensures Holds(Dimension(Binary(op, l, r), units).value, Binary(op, l, r), units)
  {
    var e, sign := Binary(op, l, r), if op.Mul? then 1 else -1;
    var a, b := Exponents(left), Exponents(right);
    var all := Combine(a, b, sign);
    BareOrDescribed(left, l, units);
    BareOrDescribed(right, r, units);
    CombineKeepsNonzero(a, b, sign);
    forall u ensures Exponent(all, u) == DegreeIn(e, units, u) {
      CombineDegrees(a, b, sign, u);
    }
    NothingLeft(all);
    UnitlessIs(all, e, units);
  }

  lemma UnitlessIs(all: map<string, int>, e: Expr, units: Units)
    requires forall u :: Exponent(all, u) == DegreeIn(e, units, u)
    ensures (forall u :: Exponent(all, u) == 0) <==> Unitless(e, units)
  {
    if Unitless(e, units) {
      forall u ensures Exponent(all, u) == 0 {
        assert DegreeIn(e, units, u) == 0;
      }
    } else {
      var u :| DegreeIn(e, units, u) != 0;
      assert Exponent(all, u) != 0;
    }
  }

  lemma SumReads(op: BinaryOp, l: Expr, r: Expr, units: Units, left: Option<Dim>, right: Option<Dim>)
    requires (op.Add? || op.Sub?) && Holds(left, l, units) && Holds(right, r, units)
    requires Dimension(l, units) == Ok(left) && Dimension(r, units) == Ok(right)
    ensures var d := Dimension(Binary(op, l, r), units);
      && (d.Ok? <==> (NamesAnInput(l) && NamesAnInput(r) ==> SameUnits(l, r, units)))
      && (d.Ok? ==> Holds(d.value, Binary(op, l, r), units))
  {
    if left.Some? && right.Some? {
      SameDimension(left.value, right.value, l, r, units);
    }
  }

  /** The checker accepts exactly the coherent formulas, and their dimension is read off unit by unit. */
  lemma {:induction false} DimensionExactly(e: Expr, units: Units)
    ensures Dimension(e, units).Ok? <==> Coherent(e, units)
    ensures Dimension(e, units).Ok? ==> Holds(Dimension(e, units).value, e, units)
  {
    match e
    case Binary(op, l, r) =>
      DimensionExactly(l, units);
      DimensionExactly(r, units);
      if Coherent(l, units) && Coherent(r, units) {
        var left, right := Dimension(l, units).value, Dimension(r, units).value;
        if op.Add? || op.Sub? {
          SumReads(op, l, r, units, left, right);
        } else {
          ProductReads(op, l, r, units, left, right);
        }
      }
    case Unary(_, a) => DimensionExactly(a, units);
    case Name(id) => NameReads(id, units);
    case _ =>
  }

  lemma NameReads(id: string, units: Units)
    ensures Dimension(Name(id), units).Ok? <==> id in units.of
    ensures id in units.of ==> Holds(Dimension(Name(id), units).value, Name(id), units)
  {
  }

  /** A formula is measured in a unit: that unit to the first power and no other, or the count of it. */
  ghost predicate MeasuredIn(e: Expr, units: Units, unit: string) {
    if unit in units.counts then Unitless(e, units) && CountIn(e, units) == Some(unit)
    else CountIn(e, units) == None && forall u :: DegreeIn(e, units, u) == if u == unit then 1 else 0
  }

  /** A formula passes the unit check exactly when it is coherent and, if it names an input, measured in the unit of the
      result. */
  lemma UnitsCheckExactly(e: Expr, units: Units, resultUnit: string)
    ensures UnitsCheck(e, units, resultUnit) <==>
      Coherent(e, units) && (NamesAnInput(e) ==> MeasuredIn(e, units, resultUnit))
  {
    DimensionExactly(e, units);
    if Coherent(e, units) && NamesAnInput(e) {
      UnitIs(Dimension(e, units).value.value, e, units, resultUnit);
    }
  }

  lemma UnitIs(d: Dim, e: Expr, units: Units, unit: string)
    requires Describes(d, e, units)
    ensures d == UnitDimension(unit, units.counts) <==> MeasuredIn(e, units, unit)
  {
    var wanted := UnitDimension(unit, units.counts);
    SameExponents(d.exponents, wanted.exponents);
    if d == wanted {
      forall u ensures DegreeIn(e, units, u) == Exponent(wanted.exponents, u) {
        assert Exponent(d.exponents, u) == DegreeIn(e, units, u);
      }
    }
    if MeasuredIn(e, units, unit) {
      forall u ensures Exponent(d.exponents, u) == Exponent(wanted.exponents, u) {
        assert Exponent(d.exponents, u) == DegreeIn(e, units, u);
      }
    }
  }

  /** One divided by a count passes as that count. */
  lemma ReciprocalOfACountIsAccepted(unit: string)
    ensures UnitsCheck(Binary(Div, Number(Some(1.0)), Name("n")), Units(map["n" := unit], {unit}), unit)
  {
    var units := Units(map["n" := unit], {unit});
    assert Dimension(Number(Some(1.0)), units) == Ok(None);
    assert Dimension(Name("n"), units) == Ok(Some(Dim(map[], Some(unit))));
    assert Combine(map[], map[], -1) == map[];
  }
}
