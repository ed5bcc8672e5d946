/** scripts/claim_proof_bundle_checker.py, `_record_outcome` and the summary of `audit_claim_proof_bundles`: which
    claims a run may report as verified. */
module Outcomes {
  import opened Bytes

  /** A checked proof bundle; verification passes it exactly when it found no error. */
  datatype Bundle = Bundle(key: string, path: string, errors: nat)

  /** A row of a claim table: one that cites no bundle, or one that cites a bundle, may promote its claim and may have
      errors of its own, such as a missing claim ID. */
  datatype Row = Plain(errors: nat) | Cites(bundle: Bundle, promotes: bool, own: nat)

  /** What the walk over the retention directory meets: a bundle, or a qualification receipt with the status that was
      recognized in it. */
  datatype Found = Proof(bundle: Bundle) | Receipt(errors: nat, status: Option<string>)

  datatype Receipts = Receipts(inspected: nat, passed: nat, nonpassing: nat, invalid: nat)

  datatype Check = Check(key: string, ok: bool, promoted: bool, path: string)

  datatype Outcome = Outcome(ok: bool, promoted: bool, paths: set<string>)

  datatype Summary = Summary(errors: nat, verified: nat, unpromoted: nat, checked: nat, receipts: Receipts)

  type Table = map<string, Outcome>

  // ---------------------------------------------------------------- the table, and what it means

  /** The table that any set of checks stands for, in whatever order they were recorded. */
  ghost function Meaning(cs: set<Check>): Table {
    map k | k in KeysOf(cs) :: Outcome(AllPass(cs, k), SomePromotes(cs, k), PathsOf(cs, k))
  }

  function KeysOf(cs: set<Check>): set<string> {
    set c | c in cs :: c.key
  }

  predicate AllPass(cs: set<Check>, k: string) {
    forall c :: c in cs && c.key == k ==> c.ok
  }

  predicate SomePromotes(cs: set<Check>, k: string) {
    exists c :: c in cs && c.key == k && c.promoted
  }

  function PathsOf(cs: set<Check>, k: string): set<string> {
    set c | c in cs && c.key == k :: c.path
  }

  function Recorded(t: Table, c: Check): Table {
    var o := if c.key in t then t[c.key] else Outcome(true, false, {});
    t[c.key := Outcome(o.ok && c.ok, o.promoted || c.promoted, o.paths + {c.path})]
  }

  /** Recording one more check is adding it to the set. */
  lemma RecordedMeans(cs: set<Check>, c: Check)
    ensures Recorded(Meaning(cs), c) == Meaning(cs + {c})
  {
    var now, then' := Recorded(Meaning(cs), c), Meaning(cs + {c});
    assert KeysOf(cs + {c}) == KeysOf(cs) + {c.key};
    forall k | k in now ensures now[k] == then'[k] {
      if k == c.key {
        assert PathsOf(cs + {c}, k) == PathsOf(cs, k) + {c.path};
        assert c in cs + {c};
        assert AllPass(cs + {c}, k) <==> AllPass(cs, k) && c.ok;
        assert SomePromotes(cs + {c}, k) <==> SomePromotes(cs, k) || c.promoted;
      } else {
        assert PathsOf(cs + {c}, k) == PathsOf(cs, k);
        assert AllPass(cs + {c}, k) <==> AllPass(cs, k);
        assert SomePromotes(cs + {c}, k) <==> SomePromotes(cs, k);
      }
    }
  }

  /** The dictionary that the checks of a run are recorded in. */
  class Ledger {
    var table: Table
    ghost var checks: set<Check>

    ghost predicate Valid()
      reads this
    {
      table == Meaning(checks)
    }

    constructor ()
      ensures Valid() && checks == {}
    {
      table, checks := map[], {};
    }

    method Record(key: string, ok: bool, promoted: bool, resolved: string)
      requires Valid()
      modifies this
      ensures Valid() && checks == old(checks) + {Check(key, ok, promoted, resolved)}
      ensures table == Recorded(old(table), Check(key, ok, promoted, resolved))
    {
      RecordedMeans(checks, Check(key, ok, promoted, resolved));
      if key !in table {
        table := table[key := Outcome(true, false, {})];
      }
      var outcome := table[key];
      outcome := outcome.(ok := outcome.ok && ok);
      outcome := outcome.(promoted := outcome.promoted || promoted);
      outcome := outcome.(paths := outcome.paths + {resolved});
      table := table[key := outcome];
      checks := checks + {Check(key, ok, promoted, resolved)};
    }

    /** How many outcomes passed and are promoted, or are not. */
    method Count(promoted: bool) returns (n: nat)
      requires Valid()
      ensures n == |Passing(table, promoted)|
    {
      var left := table.Keys;
      n := 0;
      assert Passing(table, promoted) * left == Passing(table, promoted);
      while left != {}
        invariant left <= table.Keys && n + |Passing(table, promoted) * left| == |Passing(table, promoted)|
        decreases left
      {
        var k :| k in left;
        assert Passing(table, promoted) * (left - {k}) == Passing(table, promoted) * left - {k};
        if table[k].ok && table[k].promoted == promoted {
          n := n + 1;
        }
        left := left - {k};
      }
      assert Passing(table, promoted) * {} == {};
    }

    method Cited() returns (paths: set<string>)
      requires Valid()
      ensures paths == set c | c in checks :: c.path
    {
      paths := {};
      var left := table.Keys;
      while left != {}
        invariant left <= table.Keys
        invariant paths == set c | c in checks && c.key !in left :: c.path
        decreases left
      {
        var k :| k in left;
        PathsSplit(checks, left, k);
        paths := paths + table[k].paths;
        left := left - {k};
      }
      assert (set c | c in checks && c.key !in left :: c.path) == set c | c in checks :: c.path;
    }
  }

  lemma PathsSplit(cs: set<Check>, left: set<string>, k: string)
    requires k in left
    ensures (set c | c in cs && c.key !in left - {k} :: c.path) ==
            (set c | c in cs && c.key !in left :: c.path) + PathsOf(cs, k)
  {
    var whole, before := set c | c in cs && c.key !in left - {k} :: c.path, set c | c in cs && c.key !in left :: c.path;
    forall p | p in before + PathsOf(cs, k) ensures p in whole {
      if p in before {
        var c :| c in cs && c.key !in left && c.path == p;
        assert c.key !in left - {k};
      } else {
        var c :| c in cs && c.key == k && c.path == p;
        assert c.key !in left - {k};
      }
    }
  }

  function Passing(t: Table, promoted: bool): set<string> {
    set k | k in t && t[k].ok && t[k].promoted == promoted
  }

  // ---------------------------------------------------------------- what a run reports

  function CheckOf(b: Bundle, promotes: bool): Check {
    Check(b.key, b.errors == 0, promotes, b.path)
  }

  function CitedChecks(rows: seq<Row>): set<Check> {
    set r | r in rows && r.Cites? :: CheckOf(r.bundle, r.promotes)
  }

  /** The bundles retained without being cited; those are checked, and no row promotes them. */
  function Uncited(rows: seq<Row>, retained: seq<Found>): set<Bundle> {
    set f | f in retained && f.Proof? && !(exists r :: r in rows && r.Cites? && r.bundle.path == f.bundle.path)
      :: f.bundle
  }

  function AllChecks(rows: seq<Row>, retained: seq<Found>): set<Check> {
    CitedChecks(rows) + set b | b in Uncited(rows, retained) :: CheckOf(b, false)
  }

  /** The sum of what each element counts for. */
  function Sum<T>(weight: T -> nat, s: seq<T>): nat {
    if s == [] then 0 else Sum(weight, s[..|s| - 1]) + weight(s[|s| - 1])
  }

  function RowErrors(rows: seq<Row>): nat {
    Sum(ErrorsOf, rows)
  }

  function ErrorsOf(r: Row): nat {
    if r.Cites? then r.own + r.bundle.errors else r.errors
  }

  /** The errors of the receipts, and of the retained bundles that no path in `cited` excludes. */
  function RetainedErrors(cited: set<string>, retained: seq<Found>): nat {
    Sum(Counted(cited), retained)
  }

  function Counted(cited: set<string>): Found -> nat {
    (f: Found) => if f.Receipt? then f.errors else if f.bundle.path in cited then 0 else f.bundle.errors
  }

  function One(b: bool): nat {
    if b then 1 else 0
  }

  function Inspected(f: Found): nat {
    One(f.Receipt?)
  }

  function Passed(f: Found): nat {
    One(f.Receipt? && f.errors == 0 && f.status == Some("passed"))
  }

  function Nonpassing(f: Found): nat {
    One(f.Receipt? && f.errors == 0 && f.status.Some? && f.status != Some("passed"))
  }

  function Invalid(f: Found): nat {
    One(f.Receipt? && f.errors > 0)
  }

  /** How many receipts there are, and how many of each kind; one without errors whose status was not recognized is of
      none. */
  function ReceiptCounts(retained: seq<Found>): Receipts {
    Receipts(Sum(Inspected, retained), Sum(Passed, retained),
             Sum(Nonpassing, retained), Sum(Invalid, retained))
  }

  function CitedPaths(rows: seq<Row>): set<string> {
    set r | r in rows && r.Cites? :: r.bundle.path
  }

  function Summarized(errors: nat, t: Table, receipts: Receipts): Summary {
    Summary(errors, if errors == 0 then |Passing(t, true)| else 0, |Passing(t, false)|, |t|, receipts)
  }

  /** `other` counts the errors found outside the claim tables and the retention directory. */
  ghost function Report(other: nat, rows: seq<Row>, retained: seq<Found>): Summary {
    Summarized(other + RowErrors(rows) + RetainedErrors(CitedPaths(rows), retained), Meaning(AllChecks(rows, retained)),
               ReceiptCounts(retained))
  }

  function Flat(surfaces: seq<seq<Row>>): seq<Row> {
    if surfaces == [] then [] else Flat(surfaces[..|surfaces| - 1]) + surfaces[|surfaces| - 1]
  }

  // ---------------------------------------------------------------- the run

  method ScanSurface(rows: seq<Row>, ledger: Ledger) returns (errors: nat)
    requires ledger.Valid()
    modifies ledger
    ensures ledger.Valid() && ledger.checks == old(ledger.checks) + CitedChecks(rows)
    ensures errors == RowErrors(rows)
  {
    errors := 0;
    for i := 0 to |rows|
      invariant ledger.Valid() && ledger.checks == old(ledger.checks) + CitedChecks(rows[..i])
      invariant errors == RowErrors(rows[..i])
    {
      TakeRow(rows, i);
      match rows[i] {
        case Plain(e) =>
          errors := errors + e;
        case Cites(b, promotes, own) =>
          errors := errors + own;
          ledger.Record(b.key, b.errors == 0, promotes, b.path);
          errors := errors + b.errors;
      }
    }
    assert rows[..|rows|] == rows;
  }

  lemma TakeRow(rows: seq<Row>, i: nat)
    requires i < |rows|
    ensures RowErrors(rows[..i + 1]) == RowErrors(rows[..i]) + ErrorsOf(rows[i])
    ensures CitedChecks(rows[..i + 1]) ==
      CitedChecks(rows[..i]) + if rows[i].Cites? then {CheckOf(rows[i].bundle, rows[i].promotes)} else {}
  {
    assert rows[..i + 1][..i] == rows[..i];
    assert rows[..i + 1] == rows[..i] + [rows[i]];
  }

  method ScanRetained(retained: seq<Found>, cited: set<string>, ledger: Ledger)
    returns (errors: nat, receipts: Receipts)
    requires ledger.Valid()
    modifies ledger
    ensures ledger.Valid() && ledger.checks == old(ledger.checks) + Kept(cited, retained)
    ensures errors == RetainedErrors(cited, retained) && receipts == ReceiptCounts(retained)
  {
    errors, receipts := 0, Receipts(0, 0, 0, 0);
    for i := 0 to |retained|
      invariant ledger.Valid() && ledger.checks == old(ledger.checks) + Kept(cited, retained[..i])
      invariant errors == RetainedErrors(cited, retained[..i]) && receipts == ReceiptCounts(retained[..i])
    {
      TakeFound(cited, retained, i);
      match retained[i] {
        case Receipt(found, status) =>
          receipts := Inspect(receipts, retained[i]);
          errors := errors + found;
        case Proof(b) =>
          if b.path !in cited {
            ledger.Record(b.key, b.errors == 0, false, b.path);
            errors := errors + b.errors;
          }
      }
    }
    assert retained[..|retained|] == retained;
  }

  method Inspect(before: Receipts, f: Found) returns (receipts: Receipts)
    requires f.Receipt?
    ensures receipts == Receipts(before.inspected + 1, before.passed + Passed(f),
                                 before.nonpassing + Nonpassing(f), before.invalid + Invalid(f))
  {
    receipts := before.(inspected := before.inspected + 1);
    if f.errors > 0 {
      receipts := receipts.(invalid := receipts.invalid + 1);
    } else if f.status == Some("passed") {
      receipts := receipts.(passed := receipts.passed + 1);
    } else if f.status.Some? {
      receipts := receipts.(nonpassing := receipts.nonpassing + 1);
    }
  }

  function Kept(cited: set<string>, retained: seq<Found>): set<Check> {
    set f | f in retained && f.Proof? && f.bundle.path !in cited :: CheckOf(f.bundle, false)
  }

  lemma TakeFound(cited: set<string>, retained: seq<Found>, i: nat)
    requires i < |retained|
    ensures var f, before := retained[i], ReceiptCounts(retained[..i]);
      && RetainedErrors(cited, retained[..i + 1]) == RetainedErrors(cited, retained[..i]) + Counted(cited)(f)
      && Kept(cited, retained[..i + 1]) == Kept(cited, retained[..i]) +
         (if f.Proof? && f.bundle.path !in cited then {CheckOf(f.bundle, false)} else {})
      && ReceiptCounts(retained[..i + 1]) ==
         Receipts(before.inspected + Inspected(f), before.passed + Passed(f),
                  before.nonpassing + Nonpassing(f), before.invalid + Invalid(f))
  {
    assert retained[..i + 1][..i] == retained[..i];
    assert retained[..i + 1] == retained[..i] + [retained[i]];
  }

  method Audit(other: nat, surfaces: seq<seq<Row>>, retained: seq<Found>) returns (s: Summary)
    ensures s == Report(other, Flat(surfaces), retained)
  {
    var ledger := new Ledger();
    var errors := other;
    for i := 0 to |surfaces|
      invariant ledger.Valid() && ledger.checks == CitedChecks(Flat(surfaces[..i]))
      invariant errors == other + RowErrors(Flat(surfaces[..i])) && fresh(ledger)
    {
      assert surfaces[..i + 1][..i] == surfaces[..i];
      RowsAppend(Flat(surfaces[..i]), surfaces[i]);
      var more := ScanSurface(surfaces[i], ledger);
      errors := errors + more;
    }
    assert surfaces[..|surfaces|] == surfaces;
    var cited := ledger.Cited();
    CitedAgree(Flat(surfaces), retained);
    var more, receipts := ScanRetained(retained, cited, ledger);
    s := Summarize(errors + more, ledger, receipts);
  }

  method Summarize(errors: nat, ledger: Ledger, receipts: Receipts) returns (s: Summary)
    requires ledger.Valid()
    ensures s == Summarized(errors, ledger.table, receipts)
  {
    var verified := ledger.Count(true);
    var unpromoted := ledger.Count(false);
    s := Summary(errors, if errors == 0 then verified else 0, unpromoted, |ledger.table|, receipts);
  }

  /** The run that checks one given bundle: it never reports a claim as verified. */
  method AuditBundle(other: nat, target: Bundle) returns (s: Summary)
    ensures s == Summary(other + target.errors, 0, if target.errors == 0 then 1 else 0, 1, Receipts(0, 0, 0, 0))
  {
    var ledger := new Ledger();
    ledger.Record(target.key, target.errors == 0, false, target.path);
    s := Summarize(other + target.errors, ledger, Receipts(0, 0, 0, 0));
    var t := ledger.table;
    assert t == Recorded(map[], CheckOf(target, false));
    assert Passing(t, true) == {};
    assert Passing(t, false) == if target.errors == 0 then {target.key} else {};
  }

  lemma {:induction false} SumAppend<T>(weight: T -> nat, a: seq<T>, b: seq<T>)
    ensures Sum(weight, a + b) == Sum(weight, a) + Sum(weight, b)
    decreases |b|
  {
    if b == [] {
      assert a + b == a;
    } else {
      var n := |b| - 1;
      SumAppend(weight, a, b[..n]);
      assert (a + b)[..|a| + n] == a + b[..n];
    }
  }

  lemma RowsAppend(a: seq<Row>, b: seq<Row>)
    ensures RowErrors(a + b) == RowErrors(a) + RowErrors(b) && CitedChecks(a + b) == CitedChecks(a) + CitedChecks(b)
  {
    SumAppend(ErrorsOf, a, b);
  }

  lemma CitedAgree(rows: seq<Row>, retained: seq<Found>)
    ensures (set c | c in CitedChecks(rows) :: c.path) == CitedPaths(rows)
    ensures CitedChecks(rows) + Kept(CitedPaths(rows), retained) == AllChecks(rows, retained)
  {
    forall p | p in CitedPaths(rows) ensures p in set c | c in CitedChecks(rows) :: c.path {
      var r :| r in rows && r.Cites? && r.bundle.path == p;
      assert CheckOf(r.bundle, r.promotes) in CitedChecks(rows);
    }
    assert forall f :: f in retained && f.Proof? ==>
      (f.bundle.path in CitedPaths(rows) <==> exists r :: r in rows && r.Cites? && r.bundle.path == f.bundle.path);
    assert (set b | b in Uncited(rows, retained) :: CheckOf(b, false)) == Kept(CitedPaths(rows), retained);
  }

  // ---------------------------------------------------------------- fail closed

  predicate FoundClean(cited: set<string>, f: Found) {
    if f.Receipt? then f.errors == 0 else f.bundle.path in cited || f.bundle.errors == 0
  }

  /** Nothing failed: no error outside, in any row, in any receipt, or in any retained bundle that is not cited. */
  predicate Clean(other: nat, rows: seq<Row>, retained: seq<Found>) {
    && other == 0 && (forall i :: 0 <= i < |rows| ==> ErrorsOf(rows[i]) == 0)
    && forall i :: 0 <= i < |retained| ==> FoundClean(CitedPaths(rows), retained[i])
  }

  lemma {:induction false} SumZero<T>(weight: T -> nat, s: seq<T>)
    ensures Sum(weight, s) == 0 <==> forall i :: 0 <= i < |s| ==> weight(s[i]) == 0
    decreases |s|
  {
    if s != [] {
      SumZero(weight, s[..|s| - 1]);
    }
  }

  /** The claims that some row promotes. */
  function PromotedKeys(rows: seq<Row>): set<string> {
    set r | r in rows && r.Cites? && r.promotes :: r.bundle.key
  }

  /** When nothing failed, the keys that pass and are promoted are those that some row promotes. */
  lemma PassingPromoted(other: nat, rows: seq<Row>, retained: seq<Found>)
    requires Clean(other, rows, retained)
    ensures Passing(Meaning(AllChecks(rows, retained)), true) == PromotedKeys(rows)
  {
    var cs := AllChecks(rows, retained);
    var t := Meaning(cs);
    CitedAgree(rows, retained);
    forall c | c in cs ensures c.ok {
    }
    forall k | k in PromotedKeys(rows) ensures k in Passing(t, true) {
      var r :| r in rows && r.Cites? && r.promotes && r.bundle.key == k;
      var c := CheckOf(r.bundle, true);
      assert c in cs && c.key in KeysOf(cs);
      assert SomePromotes(cs, k);
    }
    forall k | k in Passing(t, true) ensures k in PromotedKeys(rows) {
      var c :| c in cs && c.key == k && c.promoted;
      assert c in CitedChecks(rows);
    }
  }

  /** A run reports as verified the claims that some row promotes if nothing failed, and none otherwise. */
  lemma VerifiedExactly(other: nat, rows: seq<Row>, retained: seq<Found>)
    ensures var s := Report(other, rows, retained);
      && (s.errors == 0 <==> Clean(other, rows, retained))
      && s.verified == if Clean(other, rows, retained) then |PromotedKeys(rows)| else 0
  {
    SumZero(ErrorsOf, rows);
    SumZero(Counted(CitedPaths(rows)), retained);
    if Clean(other, rows, retained) {
      PassingPromoted(other, rows, retained);
    }
  }

  /** One more row that fails, anywhere, and nothing is verified. */
  lemma FailingRowWithholds(other: nat, rows: seq<Row>, retained: seq<Found>, i: nat, bad: Row)
    requires i <= |rows| && ErrorsOf(bad) > 0
    ensures Report(other, rows[..i] + [bad] + rows[i..], retained).verified == 0
  {
    var more := rows[..i] + [bad] + rows[i..];
    assert more[i] == bad;
    VerifiedExactly(other, more, retained);
  }

  /** One more receipt or retained bundle that fails, anywhere, and nothing is verified, unless it is a bundle that a
      row cites. */
  lemma FailingFindWithholds(other: nat, rows: seq<Row>, retained: seq<Found>, i: nat, bad: Found)
    requires i <= |retained| && !FoundClean(CitedPaths(rows), bad)
    ensures Report(other, rows, retained[..i] + [bad] + retained[i..]).verified == 0
  {
    var more := retained[..i] + [bad] + retained[i..];
    assert more[i] == bad;
    VerifiedExactly(other, rows, more);
  }

  /** A retained bundle that a row cites is neither checked nor counted again. */
  lemma CitedBundleIsSkipped(other: nat, rows: seq<Row>, retained: seq<Found>, i: nat, b: Bundle)
    requires i <= |retained| && b.path in CitedPaths(rows)
    ensures Report(other, rows, retained[..i] + [Proof(b)] + retained[i..]) == Report(other, rows, retained)
  {
    var more := retained[..i] + [Proof(b)] + retained[i..];
    CitedAgree(rows, retained);
    CitedAgree(rows, more);
    InsertKeeps(CitedPaths(rows), retained, i, b);
    InsertSkipped(Counted(CitedPaths(rows)), retained, i, Proof(b));
    InsertSkipped(Inspected, retained, i, Proof(b));
    InsertSkipped(Passed, retained, i, Proof(b));
    InsertSkipped(Nonpassing, retained, i, Proof(b));
    InsertSkipped(Invalid, retained, i, Proof(b));
  }

  lemma InsertKeeps(cited: set<string>, retained: seq<Found>, i: nat, b: Bundle)
    requires i <= |retained| && b.path in cited
    ensures Kept(cited, retained[..i] + [Proof(b)] + retained[i..]) == Kept(cited, retained)
  {
    var more := retained[..i] + [Proof(b)] + retained[i..];
    assert retained == retained[..i] + retained[i..];
    forall f ensures f in more <==> f in retained || f == Proof(b) {
    }
  }

  lemma InsertSkipped<T>(weight: T -> nat, s: seq<T>, i: nat, x: T)
    requires i <= |s| && weight(x) == 0
    ensures Sum(weight, s[..i] + [x] + s[i..]) == Sum(weight, s)
  {
    SumAppend(weight, s[..i] + [x], s[i..]);
    SumAppend(weight, s[..i], [x]);
    SumAppend(weight, s[..i], s[i..]);
    assert s[..i] + s[i..] == s;
    assert [x][..0] == [];
  }

  /** Every receipt is of one kind, or has a status that was not recognized. */
  lemma {:induction false} ReceiptsAddUp(retained: seq<Found>)
    ensures var r := ReceiptCounts(retained);
      r.inspected == r.passed + r.nonpassing + r.invalid + Sum(Unrecognized, retained)
    decreases |retained|
  {
    if retained != [] {
      ReceiptsAddUp(retained[..|retained| - 1]);
    }
  }

  function Unrecognized(f: Found): nat {
    One(f.Receipt? && f.errors == 0 && f.status.None?)
  }

  /** The sum of ones and zeros counts the places of the ones. */
  lemma {:induction false} SumCounts<T>(weight: T -> nat, kind: T -> bool, s: seq<T>)
    requires forall x :: weight(x) == if kind(x) then 1 else 0
    ensures Sum(weight, s) == |Places(kind, s)|
    decreases |s|
  {
    if s != [] {
      var n := |s| - 1;
      var front := s[..n];
      SumCounts(weight, kind, front);
      if kind(s[n]) {
        assert Places(kind, s) == Places(kind, front) + {n};
      } else {
        assert Places(kind, s) == Places(kind, front);
      }
    }
  }

  function Places<T>(kind: T -> bool, s: seq<T>): set<nat> {
    set i: nat | i < |s| && kind(s[i])
  }

  /** The counts of a run: a receipt with an error is invalid whatever its status says, and among the others those that
      say "passed" pass and those with another recognized status do not. */
  lemma ReceiptsCounted(other: nat, rows: seq<Row>, retained: seq<Found>)
    ensures var r := Report(other, rows, retained).receipts;
      && r.inspected == |Places((f: Found) => f.Receipt?, retained)|
      && r.passed == |Places((f: Found) => f == Receipt(0, Some("passed")), retained)|
      && r.nonpassing ==
           |Places((f: Found) => f.Receipt? && f.errors == 0 && f.status.Some? && f.status.value != "passed", retained)|
      && r.invalid == |Places((f: Found) => f.Receipt? && f.errors != 0, retained)|
  {
    SumCounts(Inspected, (f: Found) => f.Receipt?, retained);
    SumCounts(Passed, (f: Found) => f == Receipt(0, Some("passed")), retained);
    SumCounts(Nonpassing, (f: Found) => f.Receipt? && f.errors == 0 && f.status.Some? && f.status.value != "passed",
              retained);
    SumCounts(Invalid, (f: Found) => f.Receipt? && f.errors != 0, retained);
  }

  // ---------------------------------------------------------------- order

  /** An element moved to the end: the same elements, and the same sum. */
  lemma MoveToEnd<T>(weight: T -> nat, s: seq<T>, i: nat)
    requires i < |s|
    ensures var rest := s[..i] + s[i + 1..];
      Sum(weight, s) == Sum(weight, rest) + weight(s[i]) && multiset(s) == multiset(rest) + multiset{s[i]}
  {
    var a, x, b := s[..i], s[i], s[i + 1..];
    assert s == a + [x] + b;
    SumAppend(weight, a + [x], b);
    SumAppend(weight, a, [x]);
    SumAppend(weight, a, b);
    assert [x][..0] == [];
  }

  lemma {:induction false} SumAnyOrder<T>(weight: T -> nat, a: seq<T>, b: seq<T>)
    requires multiset(a) == multiset(b)
    ensures Sum(weight, a) == Sum(weight, b)
    decreases |a|
  {
    assert |multiset(a)| == |a| && |multiset(b)| == |b|;
    if a != [] {
      var n, x := |a| - 1, a[|a| - 1];
      assert x in multiset(b);
      var i :| 0 <= i < |b| && b[i] == x;
      MoveToEnd(weight, a, n);
      MoveToEnd(weight, b, i);
      var restA, restB := a[..n] + a[n + 1..], b[..i] + b[i + 1..];
      assert multiset(restA) == multiset(a) - multiset{x} && multiset(restB) == multiset(b) - multiset{x};
      SumAnyOrder(weight, restA, restB);
    }
  }

  lemma SameMembers<T>(a: seq<T>, b: seq<T>)
    requires multiset(a) == multiset(b)
    ensures forall x :: x in a <==> x in b
  {
    forall x ensures x in a <==> x in b {
      assert x in a <==> x in multiset(a);
      assert x in b <==> x in multiset(b);
    }
  }

  /** The report does not depend on the order of rows, on how they are spread over surfaces, or on the order in
      which retained bundles are met. */
  lemma OrderDoesNotMatter(
    other: nat, surfaces: seq<seq<Row>>, surfaces': seq<seq<Row>>, retained: seq<Found>, retained': seq<Found>)
    requires multiset(Flat(surfaces)) == multiset(Flat(surfaces')) && multiset(retained) == multiset(retained')
    ensures Report(other, Flat(surfaces), retained) == Report(other, Flat(surfaces'), retained')
  {
    AnyOrder(other, Flat(surfaces), Flat(surfaces'), retained, retained');
  }

  lemma AnyOrder(other: nat, rows: seq<Row>, rows': seq<Row>, retained: seq<Found>, retained': seq<Found>)
    requires multiset(rows) == multiset(rows') && multiset(retained) == multiset(retained')
    ensures Report(other, rows, retained) == Report(other, rows', retained')
  {
    SameMembers(rows, rows');
    SameMembers(retained, retained');
    SumAnyOrder(ErrorsOf, rows, rows');
    assert CitedPaths(rows) == CitedPaths(rows');
    SumAnyOrder(Counted(CitedPaths(rows)), retained, retained');
    SumAnyOrder(Inspected, retained, retained');
    SumAnyOrder(Passed, retained, retained');
    SumAnyOrder(Nonpassing, retained, retained');
    SumAnyOrder(Invalid, retained, retained');
    assert CitedChecks(rows) == CitedChecks(rows');
    CitedAgree(rows, retained);
    CitedAgree(rows', retained');
    assert Kept(CitedPaths(rows), retained) == Kept(CitedPaths(rows), retained');
  }
}
