/** scripts/claim_proof_bundle_checker.py, `load_tombstone_index`: an index built from files that others may
    change at any moment. `world(t)` is what the file system shows at step `t`; every observation takes a step,
    and nothing relates one step of the world to the next. */
module Snapshot {
  import opened Bytes
  import opened Sorting
  import opened Json

  /** What could be seen at one moment: the paths the three patterns match, whether a path is a regular file, and what
      a read or a stat of it gives (`None` when it raises OSError). */
  datatype Disk = Disk(
    listed: seq<string>, regular: string -> bool, file: string -> Option<bytes>, size: string -> Option<nat>)

  type World = nat -> Disk

  datatype Index = Index(known: set<string>, tombstoned: set<string>)

  /** The parts that are not modelled: hashing, JSON text to a tree of key-value pairs, building the index from
      a private copy, and the normal form of an identifier. */
  datatype Tools = Tools(sha: bytes -> bytes, parse: bytes -> Option<Json>, build: map<string, bytes> -> Option<Index>,
                         normal: string -> string, blank: bytes -> bool, isJson: string -> bool, cap: nat)

  datatype Refusal = NotAFile | Unreadable | Empty | DuplicateKey | NotJson | WrongShape | NoStat | OverCap
                   | NotBuilt | ListChanged | FileChanged | NoIdentifiers

  const PATH := "architecture/stable_id_resolution.json"

  // ---------------------------------------------------------------- duplicate keys

  /** The hook that refuses an object with a repeated key. */
  method RejectDuplicateKeys(keys: seq<string>, items: seq<Json>) returns (r: Option<Json>)
    requires |keys| == |items|
    ensures r.Some? <==> Distinct(keys)
    ensures r.Some? ==> r.value == Obj(keys, items)
  {
    var seen: seq<string>, held: seq<Json> := [], [];
    for i := 0 to |keys|
      invariant seen == keys[..i] && held == items[..i] && Distinct(seen)
    {
      if keys[i] in seen {
        return None;
      }
      seen, held := seen + [keys[i]], held + [items[i]];
    }
    assert keys[..|keys|] == keys && items[..|items|] == items;
    r := Some(Obj(seen, held));
  }

  /** `_loads_json`: the hook sees every object of the tree. */
  function Loads(raw: bytes, tools: Tools): Result<Json, Refusal> {
    var tree := tools.parse(raw);
    if tree.None? then Refused(NotJson) else if WellFormed(tree.value) then Ok(tree.value) else Refused(DuplicateKey)
  }

  // ---------------------------------------------------------------- the run, step by step

  /** The resolution file is an object of the right schema with at least one resolution. */
  predicate RightShape(j: Json) {
    && j.Obj? && Get(j, "schema", Null) == Str("fss.stable_id_resolution.v1")
    && Get(j, "resolutions", Null).Arr? && Get(j, "resolutions", Null).items != []
  }

  predicate HeadOk(w: World, tools: Tools) {
    && w(0).regular(PATH) && w(1).file(PATH).Some? && !tools.blank(w(1).file(PATH).value)
    && Loads(w(1).file(PATH).value, tools).Ok? && RightShape(Loads(w(1).file(PATH).value, tools).value)
  }

  function Listing(w: World, t: nat): seq<string> {
    Sort(TextLeq, w(t).listed)
  }

  /** The sizes of the files from step `t` on. */
  function Total(w: World, t: nat, files: seq<string>): Option<nat> {
    if files == [] then Some(0)
    else
      var front, last := Total(w, t, files[..|files| - 1]), w(t + |files| - 1).size(files[|files| - 1]);
      if front.Some? && last.Some? then Some(front.value + last.value) else None
  }

  /** What reads that start at step `t`, one step each, find. */
  function Finds(w: World, t: nat, files: seq<string>, i: nat): Option<bytes>
    requires i < |files|
  {
    w(t + i).file(files[i])
  }

  predicate Readable(w: World, t: nat, files: seq<string>, tools: Tools) {
    forall i: nat :: i < |files| ==> Accepted(Finds(w, t, files, i), files[i], tools)
  }

  predicate Accepted(found: Option<bytes>, path: string, tools: Tools) {
    found.Some? && (tools.isJson(path) ==> Loads(found.value, tools).Ok?)
  }

  /** The private copy: each path with the bytes of the first pass, where it could be read. */
  function Copied(w: World, t: nat, files: seq<string>): map<string, bytes> {
    if files == [] then map[]
    else
      var n := |files| - 1;
      var found, front := Finds(w, t, files, n), Copied(w, t, files[..n]);
      if found.Some? then front[files[n] := found.value] else front
  }

  /** The reads from step `t` on find, by their digests, what those from step `s` on found. */
  predicate Unchanged(w: World, s: nat, t: nat, files: seq<string>, tools: Tools) {
    forall i: nat :: i < |files| ==> SameDigest(Finds(w, s, files, i), Finds(w, t, files, i), tools)
  }

  predicate SameDigest(a: Option<bytes>, b: Option<bytes>, tools: Tools) {
    a.Some? && b.Some? && tools.sha(a.value) == tools.sha(b.value)
  }

  /** The run of a load over `world`: the steps at which it looks, and what it must see to succeed. With `n`
      files it lists them at step 2, stats them from 3 on, reads them from 3 + n on, lists them again at
      3 + 2n and reads them again from 4 + 2n on. */
  predicate Succeeds(w: World, tools: Tools) {
    HeadOk(w, tools) && FilesOk(w, Listing(w, 2), tools)
  }

  predicate FilesOk(w: World, files: seq<string>, tools: Tools) {
    var n := |files|;
    && Total(w, 3, files).Some? && Total(w, 3, files).value <= tools.cap
    && PassesOk(w, files, FirstPass(n), Relisting(n), SecondPass(n), tools)
  }

  function FirstPass(n: nat): nat {
    3 + n
  }

  function Relisting(n: nat): nat {
    3 + 2 * n
  }

  function SecondPass(n: nat): nat {
    4 + 2 * n
  }

  /** Both passes: reads from step `s` on, the listing at `l`, reads again from `t` on. */
  predicate PassesOk(w: World, files: seq<string>, s: nat, l: nat, t: nat, tools: Tools) {
    && Readable(w, s, files, tools) && BuiltOk(tools.build(Copied(w, s, files)))
    && Listing(w, l) == files && Unchanged(w, s, t, files, tools)
  }

  predicate BuiltOk(built: Option<Index>) {
    built.Some? && built.value.known != {}
  }

  /** The normalized identifiers that the copied bytes declare tombstoned. */
  function Normalized(index: Index, tools: Tools): set<string> {
    set t | t in index.tombstoned :: tools.normal(t)
  }

  function Tombstones(w: World, files: seq<string>, tools: Tools): set<string>
    requires BuiltOk(tools.build(Copied(w, FirstPass(|files|), files)))
  {
    Normalized(tools.build(Copied(w, FirstPass(|files|), files)).value, tools)
  }

  // ---------------------------------------------------------------- the loader

  method CheckHead(w: World, tools: Tools) returns (problem: Option<Refusal>)
    ensures problem == None <==> HeadOk(w, tools)
  {
    if !w(0).regular(PATH) {
      return Some(NotAFile);
    }
    var raw := w(1).file(PATH);
    if raw.None? {
      return Some(Unreadable);
    }
    if tools.blank(raw.value) {
      return Some(Empty);
    }
    var data := Loads(raw.value, tools);
    if data.Refused? {
      return Some(data.why);
    }
    problem := if RightShape(data.value) then None else Some(WrongShape);
  }

  method StatAll(w: World, t: nat, files: seq<string>) returns (total: Option<nat>)
    ensures total == Total(w, t, files)
  {
    var sum: nat := 0;
    for i := 0 to |files|
      invariant Total(w, t, files[..i]) == Some(sum)
    {
      var size := w(t + i).size(files[i]);
      assert files[..i + 1][..i] == files[..i];
      if size.None? {
        TotalStuck(w, t, files, i + 1);
        return None;
      }
      sum := sum + size.value;
    }
    assert files[..|files|] == files;
    total := Some(sum);
  }

  lemma {:induction false} TotalStuck(w: World, t: nat, files: seq<string>, i: nat)
    requires i <= |files| && Total(w, t, files[..i]).None?
    ensures Total(w, t, files).None?
    decreases |files|
  {
    if i < |files| {
      assert files[..|files| - 1][..i] == files[..i];
      TotalStuck(w, t, files[..|files| - 1], i);
    } else {
      assert files[..i] == files;
    }
  }

  /** The first pass: the digest and the bytes of every file. */
  datatype Pass = Pass(digests: map<string, bytes>, copy: map<string, bytes>)

  predicate Digested(w: World, t: nat, files: seq<string>, digests: map<string, bytes>, tools: Tools) {
    forall i: nat :: i < |files| ==>
      Finds(w, t, files, i).Some? && files[i] in digests && digests[files[i]] == tools.sha(Finds(w, t, files, i).value)
  }

  lemma FindsInPrefix(w: World, t: nat, files: seq<string>, k: nat)
    requires k <= |files|
    ensures forall i: nat :: i < k ==> Finds(w, t, files[..k], i) == Finds(w, t, files, i)
  {
  }

  method ReadAll(w: World, t: nat, files: seq<string>, tools: Tools) returns (r: Result<Pass, Refusal>)
    requires Distinct(files)
    ensures r.Ok? <==> Readable(w, t, files, tools)
    ensures r.Ok? ==> r.value.copy == Copied(w, t, files) && Digested(w, t, files, r.value.digests, tools)
  {
    var digests: map<string, bytes>, copy: map<string, bytes> := map[], map[];
    for i := 0 to |files|
      invariant Readable(w, t, files[..i], tools)
      invariant copy == Copied(w, t, files[..i]) && Digested(w, t, files[..i], digests, tools)
    {
      FindsInPrefix(w, t, files, i);
      FindsInPrefix(w, t, files, i + 1);
      assert files[..i + 1][..i] == files[..i];
      var raw := w(t + i).file(files[i]);
      assert raw == Finds(w, t, files, i);
      if raw.None? {
        return Refused(Unreadable);
      }
      digests, copy := digests[files[i] := tools.sha(raw.value)], copy[files[i] := raw.value];
      if tools.isJson(files[i]) {
        var data := Loads(raw.value, tools);
        if data.Refused? {
          return Refused(data.why);
        }
      }
    }
    assert files[..|files|] == files;
    r := Ok(Pass(digests, copy));
  }

  /** The second pass: every file again, against the digests of the first. */
  method ReadAgain(w: World, s: nat, t: nat, files: seq<string>, digests: map<string, bytes>, tools: Tools)
    returns (ok: bool)
    requires Digested(w, s, files, digests, tools)
    ensures ok <==> Unchanged(w, s, t, files, tools)
  {
    for i := 0 to |files|
      invariant forall k: nat :: k < i ==> SameDigest(Finds(w, s, files, k), Finds(w, t, files, k), tools)
    {
      var raw := w(t + i).file(files[i]);
      assert raw == Finds(w, t, files, i);
      assert Finds(w, s, files, i).Some?;
      if raw.None? || tools.sha(raw.value) != digests[files[i]] {
        assert !SameDigest(Finds(w, s, files, i), Finds(w, t, files, i), tools);
        return false;
      }
    }
    ok := true;
  }

  lemma IsTextOrder()
    ensures IsOrder(TextLeq)
  {
    forall x, y, z ensures OrderAt(TextLeq, x, y, z) {
      TextOrder(x, y, z);
    }
  }

  lemma ListingIsDistinct(w: World, t: nat)
    requires Distinct(w(t).listed)
    ensures Distinct(Listing(w, t))
  {
    var a, b := w(t).listed, Listing(w, t);
    IsTextOrder();
    SortSorts(TextLeq, a);
    DistinctByCount(a);
    DistinctByCount(b);
  }

  lemma {:induction false} DistinctByCount(s: seq<string>)
    ensures Distinct(s) <==> forall x :: multiset(s)[x] <= 1
    decreases |s|
  {
    if s != [] {
      var front, last := s[..|s| - 1], s[|s| - 1];
      DistinctByCount(front);
      DistinctSnoc(front, last);
      LastApart(s);
      assert s == front + [last];
      assert last in front <==> multiset(front)[last] > 0;
      assert forall x :: multiset(s)[x] == multiset(front)[x] + if x == last then 1 else 0;
      assert multiset(s)[last] == multiset(front)[last] + 1;
    }
  }

  lemma DistinctSnoc(front: seq<string>, last: string)
    ensures Distinct(front + [last]) <==> Distinct(front) && last !in front
  {
    var s := front + [last];
    assert forall i :: 0 <= i < |front| ==> s[i] == front[i];
    assert s[|front|] == last;
    if last in front {
      var i :| 0 <= i < |front| && front[i] == last;
      assert s[i] == s[|front|];
    }
  }

  /** Succeeds exactly when everything it looks at, at the step it looks, is in order; what it returns comes
      from the bytes of the first pass alone. */
  method LoadTombstoneIndex(w: World, tools: Tools) returns (r: Result<set<string>, Refusal>)
    requires forall t :: Distinct(w(t).listed)
    ensures r.Ok? <==> Succeeds(w, tools)
    ensures r.Ok? ==> r.value == Tombstones(w, Listing(w, 2), tools)
    ensures r.Ok? ==> exists copy :: FirstCopy(w, copy) && TombstonesOf(tools, copy, r.value)
  {
    var problem := CheckHead(w, tools);
    if problem.Some? {
      return Refused(problem.value);
    }
    ListingIsDistinct(w, 2);
    r := LoadFiles(w, Sort(TextLeq, w(2).listed), tools);
    if r.Ok? {
      CopyIsFirst(w, tools);
    }
  }

  /** The map from exactly the paths first listed to the bytes that the first pass found under each. */
  ghost predicate FirstCopy(w: World, copy: map<string, bytes>) {
    var files := Listing(w, 2);
    && (forall path :: path in copy <==> path in w(2).listed)
    && forall i: nat :: i < |files| ==>
         files[i] in copy && Finds(w, FirstPass(|files|), files, i) == Some(copy[files[i]])
  }

  /** These are the normal forms of what the index built from the copy declares tombstoned, and nothing else. */
  ghost predicate TombstonesOf(tools: Tools, copy: map<string, bytes>, ids: set<string>) {
    var built := tools.build(copy);
    built.Some? && forall id :: id in ids <==> exists t :: t in built.value.tombstoned && tools.normal(t) == id
  }

  lemma CopyIsFirst(w: World, tools: Tools)
    requires (forall t :: Distinct(w(t).listed)) && Succeeds(w, tools)
    ensures var files := Listing(w, 2);
      var copy := Copied(w, FirstPass(|files|), files);
      FirstCopy(w, copy) && TombstonesOf(tools, copy, Tombstones(w, files, tools))
  {
    var files := Listing(w, 2);
    var s := FirstPass(|files|);
    ListingIsDistinct(w, 2);
    forall path ensures path in Copied(w, s, files) <==> path in w(2).listed {
      CopiedExactly(w, s, files, path, tools);
      ListedIsSorted(w, path);
    }
    forall i: nat | i < |files|
      ensures files[i] in Copied(w, s, files) && Finds(w, s, files, i) == Some(Copied(w, s, files)[files[i]])
    {
      assert Accepted(Finds(w, s, files, i), files[i], tools);
      CopiedAt(w, s, files, i);
    }
  }

  lemma ListedIsSorted(w: World, path: string)
    ensures path in Listing(w, 2) <==> path in w(2).listed
  {
    IsTextOrder();
    SortSorts(TextLeq, w(2).listed);
    assert path in Listing(w, 2) <==> path in multiset(Listing(w, 2));
    assert path in w(2).listed <==> path in multiset(w(2).listed);
  }

  method LoadFiles(w: World, files: seq<string>, tools: Tools) returns (r: Result<set<string>, Refusal>)
    requires Distinct(files)
    ensures r.Ok? <==> FilesOk(w, files, tools)
    ensures r.Ok? ==> r.value == Tombstones(w, files, tools)
  {
    var n := |files|;
    var total := StatAll(w, 3, files);
    if total.None? {
      return Refused(NoStat);
    }
    if total.value > tools.cap {
      return Refused(OverCap);
    }
    r := LoadPasses(w, files, FirstPass(n), Relisting(n), SecondPass(n), tools);
  }

  method LoadPasses(w: World, files: seq<string>, s: nat, l: nat, t: nat, tools: Tools)
    returns (r: Result<set<string>, Refusal>)
    requires Distinct(files)
    ensures r.Ok? <==> PassesOk(w, files, s, l, t, tools)
    ensures r.Ok? ==> r.value == Normalized(tools.build(Copied(w, s, files)).value, tools)
  {
    var pass := ReadAll(w, s, files, tools);
    if pass.Refused? {
      return Refused(pass.why);
    }
    var built := tools.build(pass.value.copy);
    if built.None? {
      return Refused(NotBuilt);
    }
    if Sort(TextLeq, w(l).listed) != files {
      return Refused(ListChanged);
    }
    var same := ReadAgain(w, s, t, files, pass.value.digests, tools);
    if !same {
      return Refused(FileChanged);
    }
    if built.value.known == {} {
      return Refused(NoIdentifiers);
    }
    r := Ok(Normalized(built.value, tools));
  }

  // ---------------------------------------------------------------- over every interleaving

  ghost predicate NoCollisions(sha: bytes -> bytes) {
    forall a, b :: sha(a) == sha(b) ==> a == b
  }

  lemma {:induction false} CopiedAt(w: World, t: nat, files: seq<string>, i: nat)
    requires Distinct(files) && i < |files| && Finds(w, t, files, i).Some?
    ensures files[i] in Copied(w, t, files) && Copied(w, t, files)[files[i]] == Finds(w, t, files, i).value
    decreases |files|
  {
    var n := |files| - 1;
    FindsInPrefix(w, t, files, n);
    if i < n {
      CopiedAt(w, t, files[..n], i);
    }
  }

  lemma {:induction false} CopiedOnly(w: World, t: nat, files: seq<string>, path: string)
    ensures path in Copied(w, t, files) ==> path in files
    decreases |files|
  {
    if files != [] {
      CopiedOnly(w, t, files[..|files| - 1], path);
    }
  }

  /** The copy holds `path` exactly when it is listed. */
  lemma CopiedExactly(w: World, s: nat, files: seq<string>, path: string, tools: Tools)
    requires Distinct(files) && Readable(w, s, files, tools)
    ensures path in Copied(w, s, files) <==> path in files
  {
    CopiedOnly(w, s, files, path);
    if path in files {
      var i: nat :| i < |files| && files[i] == path;
      assert Accepted(Finds(w, s, files, i), files[i], tools);
      CopiedAt(w, s, files, i);
    }
  }

  /** One file, as both passes saw it and as the copy holds it. */
  ghost predicate SeenTwice(w: World, s: nat, t: nat, files: seq<string>, i: nat, tools: Tools)
    requires i < |files|
  {
    var copy := Copied(w, s, files);
    && files[i] in copy && Finds(w, s, files, i) == Some(copy[files[i]])
    && Finds(w, t, files, i) == Some(copy[files[i]])
    && (tools.isJson(files[i]) ==> tools.parse(copy[files[i]]).Some? && WellFormed(tools.parse(copy[files[i]]).value))
  }

  lemma FileIsSeenTwice(w: World, s: nat, t: nat, files: seq<string>, i: nat, tools: Tools)
    requires Distinct(files) && NoCollisions(tools.sha) && i < |files|
    requires Readable(w, s, files, tools) && Unchanged(w, s, t, files, tools)
    ensures SeenTwice(w, s, t, files, i, tools)
  {
    assert Accepted(Finds(w, s, files, i), files[i], tools);
    assert SameDigest(Finds(w, s, files, i), Finds(w, t, files, i), tools);
    CopiedAt(w, s, files, i);
  }

  /** However files are written between its steps, a load that succeeds built its index from a copy that holds
      exactly the listed files; each JSON one has no repeated key at any depth; and the second pass found the
      same list of files, each with the very bytes in the copy. */
  lemma CopyIsWhatBothPassesSaw(w: World, tools: Tools)
    requires (forall t :: Distinct(w(t).listed)) && NoCollisions(tools.sha) && Succeeds(w, tools)
    ensures var files := Listing(w, 2);
      var n := |files|;
      && Listing(w, Relisting(n)) == files
      && (forall path :: path in Copied(w, FirstPass(n), files) <==> path in files)
      && forall i: nat :: i < n ==> SeenTwice(w, FirstPass(n), SecondPass(n), files, i, tools)
  {
    var files := Listing(w, 2);
    ListingIsDistinct(w, 2);
    PassesSaw(w, files, FirstPass(|files|), Relisting(|files|), SecondPass(|files|), tools);
  }

  lemma PassesSaw(w: World, files: seq<string>, s: nat, l: nat, t: nat, tools: Tools)
    requires Distinct(files) && NoCollisions(tools.sha) && PassesOk(w, files, s, l, t, tools)
    ensures forall path :: path in Copied(w, s, files) <==> path in files
    ensures forall i: nat :: i < |files| ==> SeenTwice(w, s, t, files, i, tools)
  {
    forall path ensures path in Copied(w, s, files) <==> path in files {
      CopiedExactly(w, s, files, path, tools);
    }
    forall i: nat | i < |files| ensures SeenTwice(w, s, t, files, i, tools) {
      FileIsSeenTwice(w, s, t, files, i, tools);
    }
  }

  predicate SameFinds(v: World, w: World, t: nat, files: seq<string>) {
    forall i: nat :: i < |files| ==> Finds(v, t, files, i) == Finds(w, t, files, i)
  }

  /** Two worlds that show the same first pass give the same index, whatever else differs between them. */
  lemma OnlyTheFirstPassMatters(v: World, w: World, tools: Tools)
    requires Succeeds(v, tools) && Succeeds(w, tools) && v(2).listed == w(2).listed
    requires SameFinds(v, w, FirstPass(|Listing(v, 2)|), Listing(v, 2))
    ensures Tombstones(v, Listing(v, 2), tools) == Tombstones(w, Listing(w, 2), tools)
  {
    SameCopies(v, w, FirstPass(|Listing(v, 2)|), Listing(v, 2));
  }

  lemma {:induction false} SameCopies(v: World, w: World, t: nat, files: seq<string>)
    requires SameFinds(v, w, t, files)
    ensures Copied(v, t, files) == Copied(w, t, files)
    decreases |files|
  {
    if files != [] {
      FindsInPrefix(v, t, files, |files| - 1);
      FindsInPrefix(w, t, files, |files| - 1);
      SameCopies(v, w, t, files[..|files| - 1]);
    }
  }

  // ---------------------------------------------------------------- what makes it refuse

  /** The same paths are matched at both steps. */
  ghost predicate SameFiles(w: World, a: nat, b: nat) {
    forall path :: path in w(a).listed <==> path in w(b).listed
  }

  /** The reads of both passes find the same bytes. */
  predicate SameBytes(w: World, s: nat, t: nat, files: seq<string>) {
    forall i: nat :: i < |files| ==> Finds(w, s, files, i) == Finds(w, t, files, i)
  }

  lemma SameCounts(a: seq<string>, b: seq<string>)
    requires Distinct(a) && Distinct(b) && forall x :: x in a <==> x in b
    ensures multiset(a) == multiset(b)
  {
    DistinctByCount(a);
    DistinctByCount(b);
    forall x ensures multiset(a)[x] == multiset(b)[x] {
      assert x in a <==> multiset(a)[x] > 0;
      assert x in b <==> multiset(b)[x] > 0;
    }
  }

  /** The listings agree exactly when no path appeared or disappeared. */
  lemma ListingsAgree(w: World, a: nat, b: nat)
    requires Distinct(w(a).listed) && Distinct(w(b).listed)
    ensures Listing(w, a) == Listing(w, b) <==> SameFiles(w, a, b)
  {
    var s, t := w(a).listed, w(b).listed;
    IsTextOrder();
    if SameFiles(w, a, b) {
      SameCounts(s, t);
      SortOfSame(TextLeq, s, t);
    }
    if Listing(w, a) == Listing(w, b) {
      SortSorts(TextLeq, s);
      SortSorts(TextLeq, t);
      forall path ensures path in s <==> path in t {
        assert path in s <==> path in multiset(s);
        assert path in t <==> path in multiset(t);
      }
    }
  }

  lemma DigestsTellBytes(w: World, s: nat, t: nat, files: seq<string>, tools: Tools)
    requires NoCollisions(tools.sha) && Readable(w, s, files, tools)
    ensures Unchanged(w, s, t, files, tools) <==> SameBytes(w, s, t, files)
  {
    forall i: nat | i < |files|
      ensures SameDigest(Finds(w, s, files, i), Finds(w, t, files, i), tools) <==>
              Finds(w, s, files, i) == Finds(w, t, files, i)
    {
      assert Accepted(Finds(w, s, files, i), files[i], tools);
    }
  }

  /** A load succeeds exactly when its checks of the resolution file, the sizes, the first pass and the build do, no
      path appears or disappears between the listings, and no file changes between its two readings. */
  lemma SucceedsExactly(w: World, tools: Tools)
    requires (forall t :: Distinct(w(t).listed)) && NoCollisions(tools.sha)
    ensures var files := Listing(w, 2);
      var n := |files|;
      Succeeds(w, tools) <==>
        && HeadOk(w, tools) && Total(w, 3, files).Some? && Total(w, 3, files).value <= tools.cap
        && Readable(w, FirstPass(n), files, tools) && BuiltOk(tools.build(Copied(w, FirstPass(n), files)))
        && SameFiles(w, 2, Relisting(n)) && SameBytes(w, FirstPass(n), SecondPass(n), files)
  {
    var files := Listing(w, 2);
    var n := |files|;
    ListingsAgree(w, 2, Relisting(n));
    if Readable(w, FirstPass(n), files, tools) {
      DigestsTellBytes(w, FirstPass(n), SecondPass(n), files, tools);
    }
  }

  /** Any path that is matched by only one of the listings, and any listed file whose two readings differ, makes the
      load refuse. */
  lemma ChangesAreRefused(w: World, tools: Tools, path: string, i: nat)
    requires (forall t :: Distinct(w(t).listed)) && NoCollisions(tools.sha)
    requires var files := Listing(w, 2);
      var n := |files|;
      || (path in w(2).listed) != (path in w(Relisting(n)).listed)
      || (i < n && Finds(w, FirstPass(n), files, i) != Finds(w, SecondPass(n), files, i))
    ensures !Succeeds(w, tools)
  {
    SucceedsExactly(w, tools);
  }
}
