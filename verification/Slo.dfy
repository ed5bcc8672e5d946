/** scripts/claim_proof_bundle_checker.py, `_match_measurement_threshold`, `_check_slo_conjunct_coherence` and the
    loops of `_verify_slo_claim_evidence` around them: measurements matched to the conjuncts of a target. */
module Slo {
  import opened Bytes

  datatype Threshold = Threshold(comparator: string, value: real, unit: string)

  /** Instants count from a common origin; `None` for text that names no zone-qualified instant. */
  datatype Window = Window(started: Option<int>, finished: Option<int>)

  /** `None` for a unit or an operation that is missing or not exact, and for a window that is no object. */
  datatype Measurement = Measurement(unit: Option<string>, operation: Option<string>, window: Option<Window>)

  datatype Finding =
    | Untargeted
    | UnitUnbound(measurement: nat) | Failed(measurement: nat, what: string)
    | Unmeasured(conjunct: nat) | MeasuredTwice(conjunct: nat)
    | DifferentOperations
    | NoCommonInstant(latestStart: int, earliestFinish: int)

  /** What the tests of single measurements report: of the statistic that the target names, and of the measurement's own
      fields against the conjunct it selects. */
  datatype Tests = Tests(statistic: nat -> seq<string>, fields: (nat, Option<nat>) -> seq<string>)

  // ---------------------------------------------------------------- one measurement

  /** Conjunct `k` alone is measured in this unit. */
  predicate Only(ts: seq<Threshold>, unit: string, k: nat) {
    k < |ts| && ts[k].unit == unit && forall j :: 0 <= j < |ts| && ts[j].unit == unit ==> j == k
  }

  /** The conjuncts among the first `n` measured in this unit. */
  function Matching(ts: seq<Threshold>, unit: string, n: nat): (r: seq<nat>)
    requires n <= |ts|
    ensures forall i :: 0 <= i < |r| ==> r[i] < n && ts[r[i]].unit == unit
    ensures forall i, j :: 0 <= i < j < |r| ==> r[i] < r[j]
    ensures forall k :: 0 <= k < n && ts[k].unit == unit ==> k in r
  {
    if n == 0 then []
    else Matching(ts, unit, n - 1) + if ts[n - 1].unit == unit then [n - 1] else []
  }

  function Selected(ts: seq<Threshold>, m: Measurement): Option<nat> {
    if m.unit.None? then None
    else
      var matching := Matching(ts, m.unit.value, |ts|);
      if |matching| == 1 then Some(matching[0]) else None
  }

  lemma SelectedMeans(ts: seq<Threshold>, m: Measurement)
    ensures Selected(ts, m).Some? ==> m.unit.Some? && Only(ts, m.unit.value, Selected(ts, m).value)
    ensures forall k: nat :: m.unit.Some? && Only(ts, m.unit.value, k) ==> Selected(ts, m) == Some(k)
  {
    if m.unit.Some? {
      var matching := Matching(ts, m.unit.value, |ts|);
      FirstTwo(matching);
      forall k: nat | Only(ts, m.unit.value, k) ensures Selected(ts, m) == Some(k) {
        assert k in matching;
        assert forall i :: 0 <= i < |matching| ==> matching[i] == k;
      }
    }
  }

  lemma FirstTwo(r: seq<nat>)
    requires forall i, j :: 0 <= i < j < |r| ==> r[i] < r[j]
    ensures |r| > 1 ==> r[0] < r[1] && r[0] in r && r[1] in r
  {
  }

  /** The one conjunct measured in the measurement's exact unit. */
  method MatchThreshold(ts: seq<Threshold>, m: Measurement) returns (index: Option<nat>)
    ensures index == Selected(ts, m)
    ensures index.Some? <==> m.unit.Some? && exists k: nat :: Only(ts, m.unit.value, k)
    ensures index.Some? ==> Only(ts, m.unit.value, index.value)
  {
    SelectedMeans(ts, m);
    if m.unit.None? {
      return None;
    }
    var matching := ConjunctsIn(ts, m.unit.value);
    if |matching| != 1 {
      return None;
    }
    return Some(matching[0]);
  }

  method ConjunctsIn(ts: seq<Threshold>, unit: string) returns (matching: seq<nat>)
    ensures matching == Matching(ts, unit, |ts|)
  {
    matching := [];
    for k := 0 to |ts|
      invariant matching == Matching(ts, unit, k)
    {
      if ts[k].unit == unit {
        matching := matching + [k];
      }
    }
  }

  // ---------------------------------------------------------------- all measurements

  /** Which conjunct each measurement selects. */
  type Pick = Measurement -> Option<nat>

  function Selecting(ts: seq<Threshold>): Pick {
    (m: Measurement) => Selected(ts, m)
  }

  /** The measurements among the first `n` that select conjunct `k`. */
  function Located(pick: Pick, ms: seq<Measurement>, k: nat, n: nat): seq<nat>
    requires n <= |ms|
  {
    if n == 0 then []
    else Located(pick, ms, k, n - 1) + if pick(ms[n - 1]) == Some(k) then [n - 1] else []
  }

  /** What is reported of measurement `i`, which selects `index`. */
  function Examined(tests: Tests, i: nat, index: Option<nat>): seq<Finding> {
    var unbound := if index.None? then [UnitUnbound(i)] else [];
    unbound + Failures(i, tests.statistic(i)) + Failures(i, tests.fields(i, index))
  }

  function Failures(i: nat, whats: seq<string>): (r: seq<Finding>)
    ensures |r| == |whats|
  {
    seq(|whats|, k requires 0 <= k < |whats| => Failed(i, whats[k]))
  }

  predicate Passes(tests: Tests, i: nat, index: Option<nat>) {
    tests.statistic(i) == [] && tests.fields(i, index) == []
  }

  function AllExamined(pick: Pick, tests: Tests, ms: seq<Measurement>, n: nat): seq<Finding>
    requires n <= |ms|
  {
    if n == 0 then [] else AllExamined(pick, tests, ms, n - 1) + Examined(tests, n - 1, pick(ms[n - 1]))
  }

  /** Without a target only the fields are looked at. */
  function Untested(tests: Tests, n: nat): seq<Finding> {
    if n == 0 then [] else Untested(tests, n - 1) + Failures(n - 1, tests.fields(n - 1, None))
  }

  function Uncovered(pick: Pick, ms: seq<Measurement>, n: nat): seq<Finding> {
    if n == 0 then [] else Uncovered(pick, ms, n - 1) + OneConjunct(|Located(pick, ms, n - 1, |ms|)|, n - 1)
  }

  function OneConjunct(times: nat, k: nat): seq<Finding> {
    if times == 0 then [Unmeasured(k)] else if times > 1 then [MeasuredTwice(k)] else []
  }

  function ConjunctFindings(ts: seq<Threshold>, tests: Tests, ms: seq<Measurement>): seq<Finding> {
    if ts == [] then [Untargeted] + Untested(tests, |ms|)
    else AllExamined(Selecting(ts), tests, ms, |ms|) + Uncovered(Selecting(ts), ms, |ts|)
  }

  function Locs(measured: map<nat, seq<nat>>, k: nat): seq<nat> {
    if k in measured then measured[k] else []
  }

  predicate HeldAt(measured: map<nat, seq<nat>>, pick: Pick, ms: seq<Measurement>, n: nat, k: nat)
    requires n <= |ms|
  {
    Locs(measured, k) == Located(pick, ms, k, n)
  }

  /** The dictionary holds, of each conjunct that was selected, who selected it. */
  ghost predicate Collected(measured: map<nat, seq<nat>>, pick: Pick, ms: seq<Measurement>, n: nat)
    requires n <= |ms|
  {
    forall k: nat :: HeldAt(measured, pick, ms, n, k)
  }

  /** The conjuncts that the measurements select, and what is reported of each measurement. */
  method Collect(ts: seq<Threshold>, ghost pick: Pick, tests: Tests, ms: seq<Measurement>)
    returns (measured: map<nat, seq<nat>>, findings: seq<Finding>)
    requires forall i :: 0 <= i < |ms| ==> pick(ms[i]) == Selected(ts, ms[i])
    ensures findings == AllExamined(pick, tests, ms, |ms|) && Collected(measured, pick, ms, |ms|)
  {
    findings, measured := [], map[];
    for i := 0 to |ms|
      invariant findings == AllExamined(pick, tests, ms, i) && Collected(measured, pick, ms, i)
    {
      var index := PickOne(ts, pick, ms[i]);
      measured := Note(measured, pick, ms, i, index);
      var own := Examine(tests, i, index);
      findings := findings + own;
    }
  }

  method Note(measured: map<nat, seq<nat>>, ghost pick: Pick, ghost ms: seq<Measurement>, i: nat, index: Option<nat>)
    returns (now: map<nat, seq<nat>>)
    requires i < |ms| && Collected(measured, pick, ms, i) && index == pick(ms[i])
    ensures Collected(now, pick, ms, i + 1)
  {
    CollectedNext(measured, pick, ms, i);
    now := if index.Some? then measured[index.value := Locs(measured, index.value) + [i]] else measured;
  }

  method Examine(tests: Tests, i: nat, index: Option<nat>) returns (own: seq<Finding>)
    ensures own == Examined(tests, i, index)
  {
    own := if index.None? then [UnitUnbound(i)] else [];
    own := own + Failures(i, tests.statistic(i));
    own := own + Failures(i, tests.fields(i, index));
  }

  method PickOne(ts: seq<Threshold>, ghost pick: Pick, m: Measurement) returns (index: Option<nat>)
    requires pick(m) == Selected(ts, m)
    ensures index == pick(m)
  {
    index := MatchThreshold(ts, m);
  }

  lemma CollectedNext(measured: map<nat, seq<nat>>, pick: Pick, ms: seq<Measurement>, i: nat)
    requires i < |ms| && Collected(measured, pick, ms, i)
    ensures var index := pick(ms[i]);
      var now := if index.None? then measured else measured[index.value := Locs(measured, index.value) + [i]];
      Collected(now, pick, ms, i + 1)
  {
    var index := pick(ms[i]);
    var now := if index.None? then measured else measured[index.value := Locs(measured, index.value) + [i]];
    var n := i + 1;
    forall k: nat ensures HeldAt(now, pick, ms, n, k) {
      assert HeldAt(measured, pick, ms, i, k);
    }
  }

  method CheckConjuncts(ts: seq<Threshold>, tests: Tests, ms: seq<Measurement>) returns (findings: seq<Finding>)
    ensures findings == ConjunctFindings(ts, tests, ms)
  {
    if ts == [] {
      findings := [];
      for i := 0 to |ms|
        invariant findings == Untested(tests, i)
      {
        findings := findings + Failures(i, tests.fields(i, None));
      }
      return [Untargeted] + findings;
    }
    ghost var pick := Selecting(ts);
    var measured;
    measured, findings := Collect(ts, pick, tests, ms);
    findings := Cover(|ts|, pick, ms, measured, findings);
  }

  method Cover(n: nat, ghost pick: Pick, ms: seq<Measurement>, measured: map<nat, seq<nat>>, bound: seq<Finding>)
    returns (findings: seq<Finding>)
    requires Collected(measured, pick, ms, |ms|)
    ensures findings == bound + Uncovered(pick, ms, n)
  {
    findings := bound;
    for k := 0 to n
      invariant findings == bound + Uncovered(pick, ms, k)
    {
      assert HeldAt(measured, pick, ms, |ms|, k);
      var locs := Locs(measured, k);
      if locs == [] {
        findings := findings + [Unmeasured(k)];
      } else if |locs| > 1 {
        findings := findings + [MeasuredTwice(k)];
      }
    }
  }

  // ---------------------------------------------------------------- no finding, exactly one measurement for each

  predicate UnitsDistinct(ts: seq<Threshold>) {
    forall j, k :: 0 <= j < k < |ts| ==> ts[j].unit != ts[k].unit
  }

  predicate EachExact(ms: seq<Measurement>) {
    && (forall i :: 0 <= i < |ms| ==> ms[i].unit.Some?)
    && forall i, j :: 0 <= i < j < |ms| ==> ms[i].unit != ms[j].unit
  }

  /** Measurement `i` is made in the unit of conjunct `k`. */
  predicate SameUnit(ts: seq<Threshold>, ms: seq<Measurement>, i: nat, k: nat) {
    i < |ms| && k < |ts| && ms[i].unit == Some(ts[k].unit)
  }

  /** Conjuncts and measurements pair off by their units: no unit occurs twice on either side, and each side has
      the units of the other. */
  ghost predicate PairOff(ts: seq<Threshold>, ms: seq<Measurement>) {
    && UnitsDistinct(ts) && EachExact(ms)
    && (forall i: nat :: i < |ms| ==> Bound(ts, ms, i)) && (forall k: nat :: k < |ts| ==> Measured(ts, ms, k))
  }

  ghost predicate Bound(ts: seq<Threshold>, ms: seq<Measurement>, i: nat) {
    exists k: nat :: SameUnit(ts, ms, i, k)
  }

  ghost predicate Measured(ts: seq<Threshold>, ms: seq<Measurement>, k: nat) {
    exists i: nat :: SameUnit(ts, ms, i, k)
  }

  lemma {:induction false} AllExaminedExactly(pick: Pick, tests: Tests, ms: seq<Measurement>, n: nat)
    requires n <= |ms|
    ensures AllExamined(pick, tests, ms, n) == [] <==>
            forall i :: 0 <= i < n ==> pick(ms[i]).Some? && Passes(tests, i, pick(ms[i]))
  {
    if n > 0 {
      AllExaminedExactly(pick, tests, ms, n - 1);
      ExaminedExactly(tests, n - 1, pick(ms[n - 1]));
    }
  }

  lemma ExaminedExactly(tests: Tests, i: nat, index: Option<nat>)
    ensures Examined(tests, i, index) == [] <==> index.Some? && Passes(tests, i, index)
  {
    var a, b := Failures(i, tests.statistic(i)), Failures(i, tests.fields(i, index));
    assert |Examined(tests, i, index)| == (if index.None? then 1 else 0) + |a| + |b|;
  }

  /** Selected by one measurement and no other. */
  predicate SelectedBy(pick: Pick, ms: seq<Measurement>, k: nat, i: nat) {
    && i < |ms| && pick(ms[i]) == Some(k)
    && forall j :: 0 <= j < |ms| && pick(ms[j]) == Some(k) ==> j == i
  }

  ghost predicate SelectedOnce(pick: Pick, ms: seq<Measurement>, k: nat) {
    exists i: nat :: SelectedBy(pick, ms, k, i)
  }

  lemma {:induction false} LocatedMembers(pick: Pick, ms: seq<Measurement>, k: nat, n: nat)
    requires n <= |ms|
    ensures var r := Located(pick, ms, k, n);
      && (forall x :: x in r ==> x < n && pick(ms[x]) == Some(k))
      && (forall i, j :: 0 <= i < j < |r| ==> r[i] < r[j])
      && forall i :: 0 <= i < n && pick(ms[i]) == Some(k) ==> i in r
  {
    if n > 0 {
      LocatedMembers(pick, ms, k, n - 1);
      var front, r := Located(pick, ms, k, n - 1), Located(pick, ms, k, n);
      forall j | 0 <= j < |front| ensures front[j] < n - 1 {
        assert front[j] in front;
      }
      forall i | 0 <= i < n && pick(ms[i]) == Some(k) ensures i in r {
        if i == n - 1 {
          assert r[|front|] == i;
        } else {
          assert i in front;
        }
      }
    }
  }

  lemma LocatedOnce(pick: Pick, ms: seq<Measurement>, k: nat)
    ensures |Located(pick, ms, k, |ms|)| == 1 <==> SelectedOnce(pick, ms, k)
  {
    LocatedMembers(pick, ms, k, |ms|);
    OneMember(pick, ms, k, Located(pick, ms, k, |ms|));
  }

  lemma OneMember(pick: Pick, ms: seq<Measurement>, k: nat, r: seq<nat>)
    requires forall x :: x in r ==> x < |ms| && pick(ms[x]) == Some(k)
    requires forall i, j :: 0 <= i < j < |r| ==> r[i] < r[j]
    requires forall i :: 0 <= i < |ms| && pick(ms[i]) == Some(k) ==> i in r
    ensures |r| == 1 <==> SelectedOnce(pick, ms, k)
  {
    FirstTwo(r);
    if |r| == 1 {
      assert r[0] in r;
      assert SelectedBy(pick, ms, k, r[0]);
    }
    if i: nat :| SelectedBy(pick, ms, k, i) {
      assert i in r;
    }
  }

  lemma AllSoFar(front: seq<Finding>, one: seq<Finding>, good: nat -> bool, n: nat)
    requires (front == [] <==> forall k: nat :: k < n ==> good(k)) && (one == [] <==> good(n))
    ensures front + one == [] <==> forall k: nat :: k < n + 1 ==> good(k)
  {
    assert |front + one| == |front| + |one|;
  }

  ghost function Once(pick: Pick, ms: seq<Measurement>): nat -> bool {
    (k: nat) => SelectedOnce(pick, ms, k)
  }

  lemma {:induction false} UncoveredSoFar(pick: Pick, ms: seq<Measurement>, once: nat -> bool, n: nat)
    requires forall k: nat :: once(k) <==> |Located(pick, ms, k, |ms|)| == 1
    ensures Uncovered(pick, ms, n) == [] <==> forall k: nat :: k < n ==> once(k)
  {
    if n > 0 {
      UncoveredSoFar(pick, ms, once, n - 1);
      var one := OneConjunct(|Located(pick, ms, n - 1, |ms|)|, n - 1);
      assert one == [] <==> once(n - 1);
      AllSoFar(Uncovered(pick, ms, n - 1), one, once, n - 1);
    }
  }

  lemma UncoveredExactly(pick: Pick, ms: seq<Measurement>, n: nat)
    ensures Uncovered(pick, ms, n) == [] <==> forall k: nat :: k < n ==> SelectedOnce(pick, ms, k)
  {
    var once := Once(pick, ms);
    forall k: nat ensures once(k) <==> |Located(pick, ms, k, |ms|)| == 1 {
      LocatedOnce(pick, ms, k);
    }
    UncoveredSoFar(pick, ms, once, n);
    assert forall k: nat :: once(k) <==> SelectedOnce(pick, ms, k);
  }

  // ---------------------------------------------------------------- which conjuncts are reported

  ghost predicate SelectedNever(pick: Pick, ms: seq<Measurement>, k: nat) {
    forall i :: 0 <= i < |ms| ==> pick(ms[i]) != Some(k)
  }

  ghost predicate SelectedTwice(pick: Pick, ms: seq<Measurement>, k: nat) {
    exists i, j :: 0 <= i < j < |ms| && pick(ms[i]) == Some(k) && pick(ms[j]) == Some(k)
  }

  lemma LocatedTimes(pick: Pick, ms: seq<Measurement>, k: nat)
    ensures |Located(pick, ms, k, |ms|)| == 0 <==> SelectedNever(pick, ms, k)
    ensures |Located(pick, ms, k, |ms|)| > 1 <==> SelectedTwice(pick, ms, k)
  {
    LocatedMembers(pick, ms, k, |ms|);
    TwoMembers(pick, ms, k, Located(pick, ms, k, |ms|));
  }

  lemma TwoMembers(pick: Pick, ms: seq<Measurement>, k: nat, r: seq<nat>)
    requires forall x :: x in r ==> x < |ms| && pick(ms[x]) == Some(k)
    requires forall i, j :: 0 <= i < j < |r| ==> r[i] < r[j]
    requires forall i :: 0 <= i < |ms| && pick(ms[i]) == Some(k) ==> i in r
    ensures r == [] <==> SelectedNever(pick, ms, k)
    ensures |r| > 1 <==> SelectedTwice(pick, ms, k)
  {
    FirstTwo(r);
    assert r != [] ==> r[0] in r;
    if i, j :| 0 <= i < j < |ms| && pick(ms[i]) == Some(k) && pick(ms[j]) == Some(k) {
      assert i in r && j in r;
    }
  }

  lemma {:induction false} UncoveredMembers(pick: Pick, ms: seq<Measurement>, n: nat, f: Finding)
    ensures f in Uncovered(pick, ms, n) <==>
      match f
      case Unmeasured(k) => k < n && |Located(pick, ms, k, |ms|)| == 0
      case MeasuredTwice(k) => k < n && |Located(pick, ms, k, |ms|)| > 1
      case _ => false
  {
    if n > 0 {
      UncoveredMembers(pick, ms, n - 1, f);
    }
  }

  lemma {:induction false} ExaminedMembers(pick: Pick, tests: Tests, ms: seq<Measurement>, n: nat, f: Finding)
    requires n <= |ms| && (f.Unmeasured? || f.MeasuredTwice? || f.UnitUnbound?)
    ensures f in AllExamined(pick, tests, ms, n) <==>
      f.UnitUnbound? && f.measurement < n && pick(ms[f.measurement]) == None
  {
    if n > 0 {
      ExaminedMembers(pick, tests, ms, n - 1, f);
    }
  }

  /** With a target, a conjunct is reported as unmeasured exactly when no measurement is made in a unit that it alone
      has, as measured twice exactly when two or more are, and a measurement as unbound exactly when its unit is that of
      no conjunct or of several. */
  lemma ReportedExactly(ts: seq<Threshold>, tests: Tests, ms: seq<Measurement>, k: nat, i: nat)
    requires ts != [] && k < |ts| && i < |ms|
    ensures var fs := ConjunctFindings(ts, tests, ms);
      && (Unmeasured(k) in fs <==> forall j :: 0 <= j < |ms| ==> !Measures(ts, ms[j], k))
      && (MeasuredTwice(k) in fs <==>
            exists a, b :: 0 <= a < b < |ms| && Measures(ts, ms[a], k) && Measures(ts, ms[b], k))
      && (UnitUnbound(i) in fs <==> forall c: nat :: !Measures(ts, ms[i], c))
  {
    SelectingMeasures(ts);
    PickReported(Selecting(ts), tests, ms, |ts|, k, i);
  }

  lemma PickReported(pick: Pick, tests: Tests, ms: seq<Measurement>, n: nat, k: nat, i: nat)
    requires k < n && i < |ms|
    ensures var fs := AllExamined(pick, tests, ms, |ms|) + Uncovered(pick, ms, n);
      && (Unmeasured(k) in fs <==> SelectedNever(pick, ms, k))
      && (MeasuredTwice(k) in fs <==> SelectedTwice(pick, ms, k))
      && (UnitUnbound(i) in fs <==> pick(ms[i]) == None)
  {
    LocatedTimes(pick, ms, k);
    UncoveredMembers(pick, ms, n, Unmeasured(k));
    UncoveredMembers(pick, ms, n, MeasuredTwice(k));
    UncoveredMembers(pick, ms, n, UnitUnbound(i));
    ExaminedMembers(pick, tests, ms, |ms|, Unmeasured(k));
    ExaminedMembers(pick, tests, ms, |ms|, MeasuredTwice(k));
    ExaminedMembers(pick, tests, ms, |ms|, UnitUnbound(i));
  }

  /** The measurement is made in a unit that conjunct `k` alone has. */
  predicate Measures(ts: seq<Threshold>, m: Measurement, k: nat) {
    m.unit.Some? && Only(ts, m.unit.value, k)
  }

  lemma SelectingMeasures(ts: seq<Threshold>)
    ensures forall m, k: nat :: Selecting(ts)(m) == Some(k) <==> Measures(ts, m, k)
    ensures forall m :: Selecting(ts)(m) == None <==> forall k: nat :: !Measures(ts, m, k)
  {
    forall m, k: nat ensures Selecting(ts)(m) == Some(k) <==> Measures(ts, m, k) {
      SelectedMeans(ts, m);
    }
    forall m ensures Selecting(ts)(m) == None <==> forall k: nat :: !Measures(ts, m, k) {
      SelectedMeans(ts, m);
    }
  }

  // ---------------------------------------------------------------- no finding, as a bijection

  /** What a pick is for. */
  ghost predicate PicksOnly(pick: Pick, ts: seq<Threshold>) {
    forall m, k: nat :: pick(m) == Some(k) <==> m.unit.Some? && Only(ts, m.unit.value, k)
  }

  lemma SelectingPicks(ts: seq<Threshold>)
    ensures PicksOnly(Selecting(ts), ts)
  {
    forall m, k: nat ensures Selected(ts, m) == Some(k) <==> m.unit.Some? && Only(ts, m.unit.value, k) {
      SelectedMeans(ts, m);
    }
  }

  /** Every measurement selects a conjunct, and every conjunct is selected once. */
  ghost predicate Bijection(pick: Pick, ms: seq<Measurement>, n: nat) {
    && (forall i :: 0 <= i < |ms| ==> pick(ms[i]).Some? && pick(ms[i]).value < n)
    && forall k: nat :: k < n ==> SelectedOnce(pick, ms, k)
  }

  /** Every measurement passes its own tests against the conjunct it selects. */
  predicate AllPass(pick: Pick, tests: Tests, ms: seq<Measurement>) {
    forall i :: 0 <= i < |ms| ==> Passes(tests, i, pick(ms[i]))
  }

  /** No finding means that the map from measurements to conjuncts is a bijection, and that each measurement passes
      against its conjunct. */
  lemma NoFindingBijection(ts: seq<Threshold>, tests: Tests, ms: seq<Measurement>)
    requires ts != []
    ensures ConjunctFindings(ts, tests, ms) == [] <==>
            Bijection(Selecting(ts), ms, |ts|) && AllPass(Selecting(ts), tests, ms)
  {
    var pick := Selecting(ts);
    SelectingPicks(ts);
    BoundAndCovered(pick, tests, ts, ms);
  }

  lemma BoundAndCovered(pick: Pick, tests: Tests, ts: seq<Threshold>, ms: seq<Measurement>)
    requires PicksOnly(pick, ts)
    ensures AllExamined(pick, tests, ms, |ms|) + Uncovered(pick, ms, |ts|) == [] <==>
            Bijection(pick, ms, |ts|) && AllPass(pick, tests, ms)
  {
    AllExaminedExactly(pick, tests, ms, |ms|);
    UncoveredExactly(pick, ms, |ts|);
    forall i | 0 <= i < |ms| && pick(ms[i]).Some? ensures pick(ms[i]).value < |ts| {
      assert Only(ts, ms[i].unit.value, pick(ms[i]).value);
    }
  }

  lemma BijectionPairsOff(pick: Pick, ts: seq<Threshold>, ms: seq<Measurement>)
    requires PicksOnly(pick, ts) && Bijection(pick, ms, |ts|)
    ensures PairOff(ts, ms)
  {
    forall k: nat | k < |ts| ensures Only(ts, ts[k].unit, k) && Measured(ts, ms, k) {
      assert SelectedOnce(pick, ms, k);
      var i: nat :| SelectedBy(pick, ms, k, i);
      assert Only(ts, ms[i].unit.value, k);
      assert SameUnit(ts, ms, i, k);
    }
    forall i: nat | i < |ms| ensures ms[i].unit.Some? && Bound(ts, ms, i) {
      var k := pick(ms[i]).value;
      assert Only(ts, ms[i].unit.value, k);
      assert SameUnit(ts, ms, i, k);
    }
    forall i, j | 0 <= i < j < |ms| ensures ms[i].unit != ms[j].unit {
      if ms[i].unit == ms[j].unit {
        NoTwoAlike(pick, ts, ms, i, j);
      }
    }
    forall j, k | 0 <= j < k < |ts| ensures ts[j].unit != ts[k].unit {
      assert Only(ts, ts[k].unit, k);
    }
  }

  lemma NoTwoAlike(pick: Pick, ts: seq<Threshold>, ms: seq<Measurement>, i: nat, j: nat)
    requires PicksOnly(pick, ts) && Bijection(pick, ms, |ts|) && i < |ms| && j < |ms| && ms[i].unit == ms[j].unit
    ensures i == j
  {
    var k := pick(ms[i]).value;
    assert Only(ts, ms[i].unit.value, k);
    assert pick(ms[j]) == Some(k);
    assert SelectedOnce(pick, ms, k);
    var w: nat :| SelectedBy(pick, ms, k, w);
  }

  lemma PairingIsBijection(pick: Pick, ts: seq<Threshold>, ms: seq<Measurement>)
    requires PicksOnly(pick, ts) && PairOff(ts, ms)
    ensures Bijection(pick, ms, |ts|)
  {
    forall i: nat, k: nat | SameUnit(ts, ms, i, k) ensures pick(ms[i]) == Some(k) {
      assert Only(ts, ms[i].unit.value, k);
    }
    forall i: nat | i < |ms| ensures pick(ms[i]).Some? && pick(ms[i]).value < |ts| {
      assert Bound(ts, ms, i);
      var k: nat :| SameUnit(ts, ms, i, k);
    }
    forall k: nat | k < |ts| ensures SelectedOnce(pick, ms, k) {
      assert Measured(ts, ms, k);
      var i: nat :| SameUnit(ts, ms, i, k);
      forall j | 0 <= j < |ms| && pick(ms[j]) == Some(k) ensures j == i {
        assert Only(ts, ms[j].unit.value, k);
      }
      assert SelectedBy(pick, ms, k, i);
    }
  }

  /** Nothing is found exactly when conjuncts and measurements pair off by their units and each measurement passes
      against the conjunct in its unit. */
  lemma NoFindingExactly(ts: seq<Threshold>, tests: Tests, ms: seq<Measurement>)
    ensures ConjunctFindings(ts, tests, ms) == [] <==>
            ts != [] && PairOff(ts, ms) && forall i: nat, k: nat :: SameUnit(ts, ms, i, k) ==> Passes(tests, i, Some(k))
  {
    if ts != [] {
      var pick := Selecting(ts);
      SelectingPicks(ts);
      NoFindingBijection(ts, tests, ms);
      if Bijection(pick, ms, |ts|) {
        BijectionPairsOff(pick, ts, ms);
      }
      if PairOff(ts, ms) {
        PairingIsBijection(pick, ts, ms);
        PairsPass(pick, ts, tests, ms);
      }
    }
  }

  lemma PairsPass(pick: Pick, ts: seq<Threshold>, tests: Tests, ms: seq<Measurement>)
    requires PicksOnly(pick, ts) && PairOff(ts, ms)
    ensures AllPass(pick, tests, ms) <==> forall i: nat, k: nat :: SameUnit(ts, ms, i, k) ==> Passes(tests, i, Some(k))
  {
    forall i: nat, k: nat | SameUnit(ts, ms, i, k) ensures pick(ms[i]) == Some(k) {
      assert Only(ts, ms[i].unit.value, k);
    }
    if forall i: nat, k: nat :: SameUnit(ts, ms, i, k) ==> Passes(tests, i, Some(k)) {
      forall i | 0 <= i < |ms| ensures Passes(tests, i, pick(ms[i])) {
        assert Bound(ts, ms, i);
        var k: nat :| SameUnit(ts, ms, i, k);
      }
    }
  }

  /** Then there are as many measurements as conjuncts. */
  lemma AsManyAsConjuncts(ts: seq<Threshold>, tests: Tests, ms: seq<Measurement>)
    requires ConjunctFindings(ts, tests, ms) == []
    ensures |ms| == |ts|
  {
    NoFindingExactly(ts, tests, ms);
    SameSize(ts, ms);
  }

  lemma SameSize(ts: seq<Threshold>, ms: seq<Measurement>)
    requires PairOff(ts, ms)
    ensures |ms| == |ts|
  {
    var a := seq(|ts|, k requires 0 <= k < |ts| => Some(ts[k].unit));
    var b := seq(|ms|, i requires 0 <= i < |ms| => ms[i].unit);
    SizeOfDistinct(a);
    SizeOfDistinct(b);
    forall x | x in a ensures x in b {
      var k: nat :| k < |a| && a[k] == x;
      assert Measured(ts, ms, k);
      var i: nat :| SameUnit(ts, ms, i, k);
      assert b[i] == x;
    }
    forall x | x in b ensures x in a {
      var i: nat :| i < |b| && b[i] == x;
      assert Bound(ts, ms, i);
      var k: nat :| SameUnit(ts, ms, i, k);
      assert a[k] == x;
    }
    assert (set x | x in a) == (set x | x in b);
  }

  lemma {:induction false} SizeOfDistinct<T>(s: seq<T>)
    requires forall i, j :: 0 <= i < j < |s| ==> s[i] != s[j]
    ensures |set x | x in s| == |s|
    decreases |s|
  {
    if s != [] {
      var n := |s| - 1;
      SizeOfDistinct(s[..n]);
      assert (set x | x in s) == (set x | x in s[..n]) + {s[n]};
    }
  }

  // ---------------------------------------------------------------- coherence

  predicate Valid(m: Measurement) {
    && m.window.Some? && m.window.value.started.Some? && m.window.value.finished.Some?
    && m.window.value.started.value < m.window.value.finished.value
  }

  predicate AllValid(ms: seq<Measurement>) {
    forall i :: 0 <= i < |ms| ==> Valid(ms[i])
  }

  function Start(m: Measurement): int
    requires Valid(m)
  {
    m.window.value.started.value
  }

  function Finish(m: Measurement): int
    requires Valid(m)
  {
    m.window.value.finished.value
  }

  function OperationsOf(ms: seq<Measurement>): set<string> {
    set m | m in ms && m.operation.Some? :: m.operation.value
  }

  predicate IsLatestStart(ms: seq<Measurement>, t: int)
    requires AllValid(ms)
  {
    (exists i :: 0 <= i < |ms| && Start(ms[i]) == t) && forall i :: 0 <= i < |ms| ==> Start(ms[i]) <= t
  }

  predicate IsEarliestFinish(ms: seq<Measurement>, t: int)
    requires AllValid(ms)
  {
    (exists i :: 0 <= i < |ms| && Finish(ms[i]) == t) && forall i :: 0 <= i < |ms| ==> t <= Finish(ms[i])
  }

  /** Some instant lies in every window. */
  ghost predicate ShareInstant(ms: seq<Measurement>)
    requires AllValid(ms)
  {
    exists t: int :: InEvery(ms, t)
  }

  predicate InEvery(ms: seq<Measurement>, t: int)
    requires AllValid(ms)
  {
    forall i :: 0 <= i < |ms| ==> Start(ms[i]) <= t < Finish(ms[i])
  }

  /** Any two windows overlap. */
  predicate OverlapPairwise(ms: seq<Measurement>)
    requires AllValid(ms)
  {
    forall i, j :: 0 <= i < |ms| && 0 <= j < |ms| ==> Start(ms[i]) < Finish(ms[j])
  }

  method Extremes(ms: seq<Measurement>) returns (latest: int, earliest: int)
    requires |ms| > 0 && AllValid(ms)
    ensures IsLatestStart(ms, latest) && IsEarliestFinish(ms, earliest)
  {
    latest, earliest := Start(ms[0]), Finish(ms[0]);
    for i := 1 to |ms|
      invariant IsLatestStart(ms[..i], latest) && IsEarliestFinish(ms[..i], earliest)
    {
      assert ms[..i + 1] == ms[..i] + [ms[i]];
      ghost var l, e := latest, earliest;
      ghost var a: nat :| a < i && Start(ms[..i][a]) == l;
      ghost var b: nat :| b < i && Finish(ms[..i][b]) == e;
      assert ms[..i + 1][a] == ms[a] && ms[..i + 1][b] == ms[b] && ms[..i + 1][i] == ms[i];
      if Start(ms[i]) > latest {
        latest := Start(ms[i]);
      }
      if Finish(ms[i]) < earliest {
        earliest := Finish(ms[i]);
      }
    }
    assert ms[..|ms|] == ms;
  }

  /** What the coherence check finds: different operations, and windows without a common instant; windows that are
      not valid are reported elsewhere, and nothing is said about instants then. */
  method CheckCoherence(ms: seq<Measurement>) returns (findings: seq<Finding>)
    ensures DifferentOperations in findings <==>
      exists i, j :: 0 <= i < j < |ms| && TwoOperations(ms[i], ms[j])
    ensures (exists f :: f in findings && f.NoCommonInstant?) <==> |ms| >= 2 && AllValid(ms) && !ShareInstant(ms)
    ensures AllValid(ms) ==> (ShareInstant(ms) <==> OverlapPairwise(ms))
    ensures forall f :: f in findings && f.NoCommonInstant? ==>
      AllValid(ms) && IsLatestStart(ms, f.latestStart) && IsEarliestFinish(ms, f.earliestFinish)
    ensures forall f :: f in findings ==> f.DifferentOperations? || f.NoCommonInstant?
  {
    findings := [];
    if AllValid(ms) {
      CommonInstant(ms);
    }
    if |ms| < 2 {
      return;
    }
    var operations := OperationsOf(ms);
    OperationsDiffer(ms);
    if |operations| > 1 {
      findings := [DifferentOperations];
    }
    for i := 0 to |ms|
      invariant forall k :: 0 <= k < i ==> Valid(ms[k])
    {
      if !Valid(ms[i]) {
        return;
      }
    }
    var latest, earliest := Extremes(ms);
    ExtremesDecide(ms, latest, earliest);
    if latest >= earliest {
      findings := findings + [NoCommonInstant(latest, earliest)];
      assert findings[|findings| - 1].NoCommonInstant?;
    }
  }

  /** Both name an operation, and not the same one. */
  predicate TwoOperations(a: Measurement, b: Measurement) {
    a.operation.Some? && b.operation.Some? && a.operation != b.operation
  }

  lemma OperationsDiffer(ms: seq<Measurement>)
    ensures |OperationsOf(ms)| > 1 <==>
      exists i, j :: 0 <= i < j < |ms| && TwoOperations(ms[i], ms[j])
  {
    var ops := OperationsOf(ms);
    if i, j :| 0 <= i < j < |ms| && TwoOperations(ms[i], ms[j]) {
      var two := {ms[i].operation.value, ms[j].operation.value};
      assert two <= ops;
      assert |ops - two| == |ops| - |two|;
    }
    if |ops| > 1 {
      var a :| a in ops;
      assert |ops - {a}| == |ops| - 1;
      var b :| b in ops - {a};
      var m, m' :| m in ms && m' in ms && m.operation == Some(a) && m'.operation == Some(b);
      var i, j :| 0 <= i < |ms| && 0 <= j < |ms| && ms[i] == m && ms[j] == m';
      assert i < j || j < i;
    }
  }

  lemma ExtremesDecide(ms: seq<Measurement>, latest: int, earliest: int)
    requires |ms| > 0 && AllValid(ms) && IsLatestStart(ms, latest) && IsEarliestFinish(ms, earliest)
    ensures latest < earliest <==> ShareInstant(ms)
  {
    if latest < earliest {
      assert InEvery(ms, latest);
    }
    if t :| InEvery(ms, t) {
      var i :| 0 <= i < |ms| && Start(ms[i]) == latest;
      var j :| 0 <= j < |ms| && Finish(ms[j]) == earliest;
      assert latest <= t < earliest;
    }
  }

  /** Any number of windows share an instant exactly when any two of them overlap. */
  lemma CommonInstant(ms: seq<Measurement>)
    requires AllValid(ms)
    ensures ShareInstant(ms) <==> OverlapPairwise(ms)
  {
    if ms == [] {
      assert InEvery(ms, 0);
    } else {
      var latest, earliest := LatestAndEarliest(ms);
      ExtremesDecide(ms, latest, earliest);
    }
  }

  lemma {:induction false} LatestAndEarliest(ms: seq<Measurement>) returns (latest: int, earliest: int)
    requires |ms| > 0 && AllValid(ms)
    ensures IsLatestStart(ms, latest) && IsEarliestFinish(ms, earliest)
    decreases |ms|
  {
    var n := |ms| - 1;
    var l, e := Start(ms[n]), Finish(ms[n]);
    if n == 0 {
      return l, e;
    }
    var front := ms[..n];
    var latest', earliest' := LatestAndEarliest(front);
    var a :| 0 <= a < n && Start(front[a]) == latest';
    var b :| 0 <= b < n && Finish(front[b]) == earliest';
    assert ms[a] == front[a] && ms[b] == front[b];
    latest, earliest := if l > latest' then l else latest', if e < earliest' then e else earliest';
    assert forall i :: 0 <= i < |ms| ==> i == n || ms[i] == front[i];
  }
}
