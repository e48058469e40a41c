/** Finite policy constraints and their narrowing intersection. */
module PolicyIntersection {
  import opened Text
  import opened Orders

  const POLICY_SOURCES := {"explicit-policy", "release-manifest", "producer-expected-value", "digest-verified-handoff"}

  datatype FieldConstraint = FieldConstraint(field: string, allowed: seq<string>)

  /** One source's constraints. `Uninitialised` is a set that `NewConstraintSet` did not make: no source, no values. */
  datatype ConstraintSet = Uninitialised | ConstraintSet(source: string, values: map<string, seq<string>>)

  ghost predicate StrictlySorted(s: seq<string>) {
    forall i, j :: 0 <= i < j < |s| ==> Below(s[i], s[j])
  }

  /** What `NewConstraintSet` guarantees of every set it returns. */
  ghost predicate ValidSet(c: ConstraintSet) {
    c.ConstraintSet? && c.source in POLICY_SOURCES &&
    forall f :: f in c.values ==> c.values[f] != [] && StrictlySorted(c.values[f])
  }

  // ---- Building a set.

  ghost predicate Normalisable(allowed: seq<string>) {
    && allowed != [] && "" !in allowed
    && forall i, j :: 0 <= i < j < |allowed| ==> allowed[i] != allowed[j]
  }

  method NormalizeAllowed(allowed: seq<string>) returns (r: Option<seq<string>>)
    ensures r.Some? <==> Normalisable(allowed)
    ensures r.Some? ==> StrictlySorted(r.value) && multiset(r.value) == multiset(allowed)
  {
    if |allowed| == 0 || "" in allowed {
      return None;
    }
    BelowIsTotalOrder();
    var sorted := Sort(Below, allowed);
    for i := 1 to |sorted|
      invariant forall j :: 0 < j < i ==> sorted[j - 1] != sorted[j]
    {
      if sorted[i] == sorted[i - 1] {
        RepeatedTwice(sorted, i - 1, i);
        UniqueOnce(allowed, sorted[i]);
        return None;
      }
    }
    NeighboursSuffice(sorted);
    DistinctFollows(allowed, sorted);
    r := Some(sorted);
  }

  lemma NeighboursSuffice(s: seq<string>)
    requires SortedBy(Below, s) && forall j :: 0 < j < |s| ==> s[j - 1] != s[j]
    ensures StrictlySorted(s)
  {
    BelowIsTotalOrder();
    forall i, j | 0 <= i < j < |s|
      ensures Below(s[i], s[j])
    {
      assert !Below(s[i + 1], s[i]) && !Below(s[j], s[i + 1]);
      BelowIsAsymmetric(s[i], s[i + 1]);
      BelowIsAsymmetric(s[i], s[j]);
      BelowIsAsymmetric(s[i + 1], s[j]);
      if s[i + 1] != s[j] {
        BelowIsTransitive(s[i], s[i + 1], s[j]);
      }
    }
  }

  lemma RepeatedTwice(s: seq<string>, i: nat, j: nat)
    requires i < j < |s| && s[i] == s[j]
    ensures multiset(s)[s[i]] >= 2
  {
    assert s == s[..j] + [s[j]] + s[j + 1..];
    assert s[i] in s[..j];
    assert multiset(s) == multiset(s[..j]) + multiset{s[j]} + multiset(s[j + 1..]);
  }

  lemma {:induction false} UniqueOnce(s: seq<string>, x: string)
    ensures (forall i, j :: 0 <= i < j < |s| ==> s[i] != s[j]) ==> multiset(s)[x] <= 1
  {
    if s != [] {
      InitLast(s);
      UniqueOnce(Init(s), x);
      assert multiset(s) == multiset(Init(s)) + multiset{Last(s)};
      if multiset(Init(s))[x] >= 1 {
        assert x in Init(s);
      }
    }
  }

  lemma DistinctFollows(allowed: seq<string>, sorted: seq<string>)
    requires StrictlySorted(sorted) && multiset(sorted) == multiset(allowed)
    ensures forall i, j :: 0 <= i < j < |allowed| ==> allowed[i] != allowed[j]
  {
    forall i, j | 0 <= i < j < |allowed|
      ensures allowed[i] != allowed[j]
    {
      if allowed[i] == allowed[j] {
        RepeatedTwice(allowed, i, j);
        forall a, b | 0 <= a < b < |sorted|
          ensures sorted[a] != sorted[b]
        {
          BelowIsAsymmetric(sorted[a], sorted[b]);
        }
        UniqueOnce(sorted, allowed[i]);
        assert false;
      }
    }
  }

  // A field name is canonical when it is non-empty and trimming leaves it alone; trimming is left to a library.

  /** `values` holds, sorted, what each of the constraints allows, and nothing else. */
  ghost predicate Holds(values: map<string, seq<string>>, constraints: seq<FieldConstraint>) {
    && (forall f :: f in values ==> values[f] != [] && StrictlySorted(values[f]))
    && (forall f :: f in values <==> exists i :: 0 <= i < |constraints| && constraints[i].field == f)
    && (forall i :: 0 <= i < |constraints| ==>
          multiset(values[constraints[i].field]) == multiset(constraints[i].allowed))
  }

  ghost predicate AllAcceptable(constraints: seq<FieldConstraint>, canonical: string -> bool) {
    && (forall i :: 0 <= i < |constraints| ==> canonical(constraints[i].field) && Normalisable(constraints[i].allowed))
    && (forall i, j :: 0 <= i < j < |constraints| ==> constraints[i].field != constraints[j].field)
  }

  lemma HoldsNext(values: map<string, seq<string>>, constraints: seq<FieldConstraint>, c: FieldConstraint,
                  normalized: seq<string>)
    requires Holds(values, constraints) && c.field !in values
    requires normalized != [] && StrictlySorted(normalized) && multiset(normalized) == multiset(c.allowed)
    ensures Holds(values[c.field := normalized], constraints + [c])
  {
    hide StrictlySorted;
    var after, all := values[c.field := normalized], constraints + [c];
    assert forall i :: 0 <= i < |constraints| ==> all[i] == constraints[i] && all[i].field in values;
    assert all[|constraints|] == c;
  }

  lemma AcceptNext(values: map<string, seq<string>>, done: seq<FieldConstraint>, c: FieldConstraint,
                   canonical: string -> bool)
    requires Holds(values, done) && AllAcceptable(done, canonical)
    requires canonical(c.field) && c.field !in values && Normalisable(c.allowed)
    ensures AllAcceptable(done + [c], canonical)
  {
    hide Normalisable;
    var all := done + [c];
    assert forall i :: 0 <= i < |done| ==> all[i] == done[i] && done[i].field in values;
  }

  lemma RejectNext(values: map<string, seq<string>>, constraints: seq<FieldConstraint>, n: nat,
                   canonical: string -> bool)
    requires n < |constraints| && Holds(values, constraints[..n])
    requires var c := constraints[n]; !canonical(c.field) || c.field in values || !Normalisable(c.allowed)
    ensures !AllAcceptable(constraints, canonical)
  {
    hide Normalisable;
    if constraints[n].field in values {
      var i :| 0 <= i < n && constraints[..n][i].field == constraints[n].field;
      assert constraints[i].field == constraints[n].field;
    }
  }

  method NewConstraintSet(source: string, constraints: seq<FieldConstraint>, canonical: string -> bool)
    returns (r: Option<ConstraintSet>)
    ensures r.Some? <==> source in POLICY_SOURCES && AllAcceptable(constraints, canonical)
    ensures r.Some? ==> ValidSet(r.value) && r.value.source == source && Holds(r.value.values, constraints)
  {
    if source !in POLICY_SOURCES {
      return None;
    }
    var values := FillValues(constraints, canonical);
    if values.None? {
      return None;
    }
    r := Some(ConstraintSet(source, values.value));
  }

  method FillValues(constraints: seq<FieldConstraint>, canonical: string -> bool)
    returns (r: Option<map<string, seq<string>>>)
    ensures r.Some? <==> AllAcceptable(constraints, canonical)
    ensures r.Some? ==> Holds(r.value, constraints)
  {
    var values: map<string, seq<string>> := map[];
    assert constraints[..0] == [];
    assert Holds(values, []) && AllAcceptable([], canonical);
    hide Normalisable, StrictlySorted, Holds, AllAcceptable;
    for n := 0 to |constraints|
      invariant Holds(values, constraints[..n]) && AllAcceptable(constraints[..n], canonical)
    {
      var c := constraints[n];
      TakeNext(constraints, n);
      if !canonical(c.field) || c.field in values {
        RejectNext(values, constraints, n, canonical);
        return None;
      }
      var normalized := NormalizeAllowed(c.allowed);
      if normalized.None? {
        RejectNext(values, constraints, n, canonical);
        return None;
      }
      NonEmptyResult(c.allowed, normalized.value);
      HoldsNext(values, constraints[..n], c, normalized.value);
      AcceptNext(values, constraints[..n], c, canonical);
      values := values[c.field := normalized.value];
    }
    assert constraints[..|constraints|] == constraints;
    r := Some(values);
  }

  lemma NonEmptyResult(allowed: seq<string>, sorted: seq<string>)
    requires Normalisable(allowed) && multiset(sorted) == multiset(allowed)
    ensures sorted != []
  {
    assert allowed[0] in multiset(sorted);
  }

  // ---- Intersection.

  predicate Subset(candidate: seq<string>, current: seq<string>) {
    forall value :: value in candidate ==> value in current
  }

  /** `intersectValues`: the elements of `left` that are in `right`, in order. */
  function Common(left: seq<string>, right: seq<string>): seq<string> {
    if left == [] then []
    else Common(Init(left), right) + if Last(left) in right then [Last(left)] else []
  }

  lemma {:induction false} CommonIsFilter(left: seq<string>, right: seq<string>)
    ensures forall x :: x in Common(left, right) <==> x in left && x in right
    ensures StrictlySorted(left) ==> StrictlySorted(Common(left, right))
  {
    if left != [] {
      InitLast(left);
      CommonIsFilter(Init(left), right);
      assert forall x :: x in left <==> x in Init(left) || x == Last(left);
      if StrictlySorted(left) {
        assert forall i :: 0 <= i < |left| - 1 ==> Below(left[i], Last(left));
        assert forall x :: x in Init(left) ==> Below(x, Last(left));
        var common := Common(Init(left), right);
        assert forall i :: 0 <= i < |common| ==> common[i] in common;
      }
    }
  }

  lemma SortedSetsAreEqual(a: seq<string>, b: seq<string>)
    requires StrictlySorted(a) && StrictlySorted(b) && forall x :: x in a <==> x in b
    ensures a == b
  {
    BelowIsTotalOrder();
    DistinctMembers(a);
    DistinctMembers(b);
    forall x
      ensures multiset(a)[x] == multiset(b)[x]
    {
      UniqueOnce(a, x);
      UniqueOnce(b, x);
      assert x in a <==> multiset(a)[x] > 0;
      assert x in b <==> multiset(b)[x] > 0;
    }
    assert multiset(a) == multiset(b);
    SortedIsUnique(Below, a, b);
  }

  lemma DistinctMembers(a: seq<string>)
    requires StrictlySorted(a)
    ensures SortedBy(Below, a) && forall i, j :: 0 <= i < j < |a| ==> a[i] != a[j]
  {
    forall i, j | 0 <= i < j < |a|
      ensures !Below(a[j], a[i]) && a[i] != a[j]
    {
      BelowIsAsymmetric(a[i], a[j]);
    }
  }

  /** A narrowing candidate is the intersection. */
  lemma NarrowingIsIntersection(current: seq<string>, candidate: seq<string>)
    requires StrictlySorted(current) && StrictlySorted(candidate) && Subset(candidate, current)
    ensures Common(current, candidate) == candidate
  {
    CommonIsFilter(current, candidate);
    SortedSetsAreEqual(Common(current, candidate), candidate);
  }

  /** The sources that constrain a field, in order. */
  function Constraining(sets: seq<ConstraintSet>, field: string): (cs: seq<ConstraintSet>)
    ensures forall i :: 0 <= i < |cs| ==> cs[i].ConstraintSet? && field in cs[i].values && cs[i] in sets
  {
    if sets == [] then []
    else
      Constraining(Init(sets), field) +
      if Last(sets).ConstraintSet? && field in Last(sets).values then [Last(sets)] else []
  }

  lemma ConstrainingSnoc(sets: seq<ConstraintSet>, c: ConstraintSet, field: string)
    requires c.ConstraintSet?
    ensures Constraining(sets + [c], field) == Constraining(sets, field) + if field in c.values then [c] else []
  {
    assert Init(sets + [c]) == sets;
  }

  /** Each of the sets allows no more than the one before it. */
  ghost predicate Descend(cs: seq<ConstraintSet>, field: string)
    requires forall i :: 0 <= i < |cs| ==> cs[i].ConstraintSet? && field in cs[i].values
  {
    forall i, j :: 0 <= i && j == i + 1 && j < |cs| ==> Subset(cs[j].values[field], cs[i].values[field])
  }

  lemma DescendSnoc(cs: seq<ConstraintSet>, c: ConstraintSet, field: string)
    requires forall i :: 0 <= i < |cs| ==> cs[i].ConstraintSet? && field in cs[i].values
    requires c.ConstraintSet? && field in c.values
    ensures Descend(cs + [c], field) <==>
            Descend(cs, field) && (cs != [] ==> Subset(c.values[field], Last(cs).values[field]))
  {
    hide Subset;
    var more := cs + [c];
    assert forall i :: 0 <= i < |cs| ==> more[i] == cs[i];
    if Descend(more, field) {
      forall i, j | 0 <= i && j == i + 1 && j < |cs|
        ensures Subset(cs[j].values[field], cs[i].values[field])
      {
        assert more[i] == cs[i] && more[j] == cs[j];
      }
      if cs != [] {
        assert more[|cs| - 1] == Last(cs) && more[|cs|] == c;
      }
    }
  }

  /** Every source that constrains the field allows no more than the previous one that does. */
  ghost predicate Descending(sets: seq<ConstraintSet>, field: string) {
    Descend(Constraining(sets, field), field)
  }

  datatype Effective = Effective(values: map<string, seq<string>>, sources: map<string, seq<string>>)

  datatype Outcome = Intersection(effective: Effective) | NotInitialised | Conflict(field: string)

  function SourceNames(cs: seq<ConstraintSet>): seq<string>
    requires forall i :: 0 <= i < |cs| ==> cs[i].ConstraintSet?
  {
    seq(|cs|, i requires 0 <= i < |cs| => cs[i].source)
  }

  /** What the effective constraints say of one field after the given sources. */
  ghost predicate FieldIs(e: Effective, sets: seq<ConstraintSet>, field: string) {
    var cs := Constraining(sets, field);
    && (field in e.values <==> cs != []) && (field in e.sources <==> cs != [])
    && (cs != [] ==> e.values[field] == Last(cs).values[field] && e.sources[field] == SourceNames(cs))
  }

  ghost predicate AllValid(sets: seq<ConstraintSet>) {
    forall i :: 0 <= i < |sets| ==> ValidSet(sets[i])
  }

  /** The effective constraints are those of the given sources, all of which descend. */
  ghost predicate Tracks(e: Effective, sets: seq<ConstraintSet>) {
    AllValid(sets) && forall field :: FieldIs(e, sets, field) && Descending(sets, field)
  }

  /** Half way through a candidate: the remaining fields are as before it, the others as after it. */
  ghost predicate Underway(e: Effective, sets: seq<ConstraintSet>, c: ConstraintSet, remaining: set<string>) {
    forall field ::
      if field in remaining then FieldIs(e, sets, field)
      else FieldIs(e, sets + [c], field) && Descending(sets + [c], field)
  }

  lemma UntouchedField(e: Effective, sets: seq<ConstraintSet>, c: ConstraintSet, field: string)
    requires FieldIs(e, sets, field) && Descending(sets, field) && ValidSet(c) && field !in c.values
    ensures FieldIs(e, sets + [c], field) && Descending(sets + [c], field)
  {
    ConstrainingSnoc(sets, c, field);
    NothingAdded(Constraining(sets, field));
  }

  lemma BeginCandidate(e: Effective, sets: seq<ConstraintSet>, c: ConstraintSet)
    requires Tracks(e, sets) && ValidSet(c)
    ensures Underway(e, sets, c, c.values.Keys)
  {
    hide FieldIs, Descending;
    forall field | field !in c.values
      ensures FieldIs(e, sets + [c], field) && Descending(sets + [c], field)
    {
      UntouchedField(e, sets, c, field);
    }
  }

  /** What the candidate makes of a field, whether or not it was constrained before. */
  lemma CandidateField(e: Effective, sets: seq<ConstraintSet>, c: ConstraintSet, field: string)
    requires FieldIs(e, sets, field) && Descending(sets, field) && AllValid(sets)
    requires ValidSet(c) && field in c.values
    ensures Descending(sets + [c], field) <==> field in e.values ==> Subset(c.values[field], e.values[field])
    ensures field in e.values ==> field in e.sources && StrictlySorted(e.values[field])
  {
    var cs := Constraining(sets, field);
    ConstrainingSnoc(sets, c, field);
    DescendSnoc(cs, c, field);
    if cs != [] {
      assert Last(cs) in sets;
      var k :| 0 <= k < |sets| && sets[k] == Last(cs);
      assert ValidSet(sets[k]);
    }
  }

  lemma FieldWritten(e: Effective, e': Effective, sets: seq<ConstraintSet>, c: ConstraintSet, field: string)
    requires FieldIs(e, sets, field) && ValidSet(c) && field in c.values
    requires field in e'.values && field in e'.sources && e'.values[field] == c.values[field]
    requires field in e.values ==> field in e.sources && e'.sources[field] == e.sources[field] + [c.source]
    requires field !in e.values ==> e'.sources[field] == [c.source]
    ensures FieldIs(e', sets + [c], field)
  {
    var cs := Constraining(sets, field);
    ConstrainingSnoc(sets, c, field);
    assert SourceNames(cs + [c]) == SourceNames(cs) + [c.source];
    assert cs == [] ==> SourceNames(cs + [c]) == [c.source];
  }

  /** Writing one field leaves what is said of the others. */
  lemma WriteField(e: Effective, e': Effective, sets: seq<ConstraintSet>, c: ConstraintSet, remaining: set<string>,
                   field: string)
    requires Underway(e, sets, c, remaining) && field in remaining
    requires field in e'.values && field in e'.sources
    requires e' == Effective(e.values[field := e'.values[field]], e.sources[field := e'.sources[field]])
    requires FieldIs(e', sets + [c], field) && Descending(sets + [c], field)
    ensures Underway(e', sets, c, remaining - {field})
  {
    hide Descending;
    forall other | other != field
      ensures FieldIs(e, sets, other) ==> FieldIs(e', sets, other)
      ensures FieldIs(e, sets + [c], other) ==> FieldIs(e', sets + [c], other)
    {
      OtherField(e, e', sets, field, other);
      OtherField(e, e', sets + [c], field, other);
    }
  }

  lemma OtherField(e: Effective, e': Effective, sets: seq<ConstraintSet>, field: string, other: string)
    requires other != field && field in e'.values && field in e'.sources
    requires e' == Effective(e.values[field := e'.values[field]], e.sources[field := e'.sources[field]])
    ensures FieldIs(e, sets, other) ==> FieldIs(e', sets, other)
  {
  }

  /** All sets are initialised, and every field's constraining sources descend. */
  ghost predicate Narrows(sets: seq<ConstraintSet>) {
    && (forall i :: 0 <= i < |sets| ==> sets[i].ConstraintSet?)
    && (forall field :: Descending(sets, field))
  }

  /** Set `n` is the first the intersection stops at, and it does so because the set is not initialised. */
  ghost predicate StopsUninitialised(sets: seq<ConstraintSet>, n: nat) {
    n < |sets| && Narrows(sets[..n]) && sets[n].Uninitialised?
  }

  /** Set `n` is the first the intersection stops at, and it does so because the set widens `field`. */
  ghost predicate StopsWidening(sets: seq<ConstraintSet>, n: nat, field: string) {
    n < |sets| && Narrows(sets[..n]) && sets[n].ConstraintSet? && !Descending(sets[..n + 1], field)
  }

  /** Succeeds exactly when all sets are initialised and every field's constraining sources descend, in whatever order
      maps are walked; otherwise it reports what is wrong with the first set at which that stops being so. */
  method Intersect(baseline: ConstraintSet, narrowing: seq<ConstraintSet>) returns (r: Outcome)
    requires forall c :: c in [baseline] + narrowing && c.ConstraintSet? ==> ValidSet(c)
    ensures r.Intersection? <==> Narrows([baseline] + narrowing)
    ensures r.Intersection? ==> Tracks(r.effective, [baseline] + narrowing)
    ensures r.NotInitialised? <==> exists n: nat :: StopsUninitialised([baseline] + narrowing, n)
    ensures r.Conflict? ==> exists n: nat :: StopsWidening([baseline] + narrowing, n, r.field)
  {
    hide FieldIs, Descending, ValidSet, StopsUninitialised, StopsWidening, Constraining, Tracks, Narrows;
    var all := [baseline] + narrowing;
    assert baseline in all && all[..1] == [baseline];
    if baseline.Uninitialised? {
      NothingNarrows();
      StoppedUninitialised(all, 0);
      return NotInitialised;
    }
    var e := Effective(baseline.values, map field | field in baseline.values :: [baseline.source]);
    BaselineFields(e, baseline);
    TracksNarrows(e, [baseline]);
    for n := 0 to |narrowing|
      invariant Tracks(e, all[..n + 1]) && Narrows(all[..n + 1])
    {
      var candidate := narrowing[n];
      TakeNext(all, n + 1);
      assert all[n + 1] == candidate && candidate in all;
      if candidate.Uninitialised? {
        StoppedUninitialised(all, n + 1);
        return NotInitialised;
      }
      var next, conflict := Narrow(e, all[..n + 1], candidate);
      if conflict.Some? {
        StoppedWidening(all, n + 1, conflict.value);
        return Conflict(conflict.value);
      }
      e := next;
      TracksNarrows(e, all[..n + 2]);
    }
    assert all[..|narrowing| + 1] == all;
    NeverStopped(all);
    r := Intersection(e);
  }

  lemma TracksNarrows(e: Effective, sets: seq<ConstraintSet>)
    requires Tracks(e, sets)
    ensures Narrows(sets)
  {
    hide Descending, FieldIs;
  }

  lemma NothingNarrows()
    ensures Narrows([])
  {
    assert forall field :: Constraining([], field) == [];
  }

  lemma StoppedUninitialised(all: seq<ConstraintSet>, n: nat)
    requires n < |all| && Narrows(all[..n]) && all[n].Uninitialised?
    ensures !Narrows(all) && StopsUninitialised(all, n)
  {
  }

  lemma StoppedWidening(all: seq<ConstraintSet>, n: nat, field: string)
    requires n < |all| && Narrows(all[..n]) && all[n].ConstraintSet? && !Descending(all[..n + 1], field)
    ensures !Narrows(all) && StopsWidening(all, n, field)
    ensures forall m: nat :: !StopsUninitialised(all, m)
  {
    hide Descending;
    DescendingIsPrefixClosed(all, n + 1, field);
    assert forall i :: 0 <= i < n ==> all[..n][i] == all[i];
    forall m: nat | StopsUninitialised(all, m)
      ensures false
    {
      if m > n {
        assert all[..m][..n + 1] == all[..n + 1];
        DescendingIsPrefixClosed(all[..m], n + 1, field);
      }
    }
  }

  lemma NeverStopped(all: seq<ConstraintSet>)
    requires Narrows(all)
    ensures forall m: nat :: !StopsUninitialised(all, m)
  {
  }

  lemma BaselineFields(e: Effective, baseline: ConstraintSet)
    requires ValidSet(baseline)
    requires e == Effective(baseline.values, map field | field in baseline.values :: [baseline.source])
    ensures Tracks(e, [baseline])
  {
    assert Init([baseline]) == [];
    forall field
      ensures FieldIs(e, [baseline], field) && Descending([baseline], field)
    {
      assert Constraining([], field) == [];
      assert Constraining([baseline], field) == if field in baseline.values then [baseline] else [];
    }
  }

  lemma {:induction false} DescendingIsPrefixClosed(sets: seq<ConstraintSet>, n: nat, field: string)
    requires n <= |sets| && !Descending(sets[..n], field)
    ensures !Descending(sets, field)
    decreases |sets|
  {
    if n == |sets| {
      assert sets[..n] == sets;
    } else {
      assert Init(sets)[..n] == sets[..n];
      DescendingIsPrefixClosed(Init(sets), n, field);
      var front, all := Constraining(Init(sets), field), Constraining(sets, field);
      assert forall i :: 0 <= i < |front| ==> all[i] == front[i];
    }
  }

  /** The inner loop: the fields of one candidate, in no particular order. */
  method Narrow(e: Effective, ghost sets: seq<ConstraintSet>, candidate: ConstraintSet)
    returns (next: Effective, conflict: Option<string>)
    requires ValidSet(candidate) && Tracks(e, sets)
    ensures conflict.Some? ==> !Descending(sets + [candidate], conflict.value)
    ensures conflict.None? ==> Tracks(next, sets + [candidate])
  {
    hide StrictlySorted, FieldIs, Descending;
    next, conflict := e, None;
    var remaining := candidate.values.Keys;
    BeginCandidate(e, sets, candidate);
    while remaining != {}
      invariant remaining <= candidate.values.Keys
      invariant Underway(next, sets, candidate, remaining)
      decreases |remaining|
    {
      var field :| field in remaining;
      CandidateField(next, sets, candidate, field);
      var allowed := candidate.values[field];
      ghost var before := next;
      if field !in next.values {
        next := Effective(next.values[field := allowed], next.sources[field := [candidate.source]]);
      } else {
        var current, sources := next.values[field], next.sources[field] + [candidate.source];
        if !Subset(allowed, current) {
          conflict := Some(field);
          return;
        }
        NarrowingIsIntersection(current, allowed);
        var intersection := Common(current, allowed);
        if |intersection| == 0 {
          assert false;
        }
        next := Effective(next.values[field := intersection], next.sources[field := sources]);
      }
      FieldWritten(before, next, sets, candidate, field);
      WriteField(before, next, sets, candidate, remaining, field);
      remaining := remaining - {field};
    }
  }

  // ---- Consequences.

  /** The effective values lie inside those of every source that constrains the field. */
  lemma {:induction false} EffectiveInsideEverySource(sets: seq<ConstraintSet>, field: string, i: nat, j: nat)
    requires Descending(sets, field) && i <= j < |Constraining(sets, field)|
    ensures Subset(Constraining(sets, field)[j].values[field], Constraining(sets, field)[i].values[field])
    decreases j - i
  {
    if i < j {
      EffectiveInsideEverySource(sets, field, i, j - 1);
    }
  }

  predicate Allows(e: Effective, field: string, value: string) {
    field in e.values && value in e.values[field]
  }

  /** Adding a source can only take values away from a field, except that a field nobody constrained, which allowed
      nothing, starts to allow its values. */
  lemma NarrowingShrinksConstrainedFields(before: Effective, after: Effective, sets: seq<ConstraintSet>,
                                          c: ConstraintSet, field: string)
    requires ValidSet(c) && AllValid(sets)
    requires FieldIs(before, sets, field) && FieldIs(after, sets + [c], field) && Descending(sets + [c], field)
    ensures (forall value :: Allows(after, field, value) ==> Allows(before, field, value)) <==>
            field in before.values || field !in c.values
  {
    hide Constraining, Descend, StrictlySorted;
    var cs := Constraining(sets, field);
    ConstrainingSnoc(sets, c, field);
    NothingAdded(cs);
    if field in c.values {
      DescendSnoc(cs, c, field);
      assert Last(cs + [c]) == c;
      if cs == [] {
        assert Allows(after, field, c.values[field][0]);
      }
    }
  }

  /** A baseline that leaves the source ref free, and a source that constrains it. */
  const FREE_BASELINE := ConstraintSet("explicit-policy", map[])
  const REF := "source.ref"
  const MAIN := "refs/heads/main"
  const FIRST_CONSTRAINT := ConstraintSet("release-manifest", map[REF := [MAIN]])

  /** After a baseline without constraints, any first constraint is effective as it stands. */
  lemma FirstConstraint(free: ConstraintSet, c: ConstraintSet)
    requires free.ConstraintSet? && free.values == map[] && c.ConstraintSet?
    ensures Narrows([free]) && Narrows([free] + [c])
    ensures forall e, field :: FieldIs(e, [free], field) ==> field !in e.values
    ensures forall e, field :: FieldIs(e, [free] + [c], field) && field in c.values ==>
                                 field in e.values && e.values[field] == c.values[field]
  {
    assert [] + [free] == [free];
    forall field
      ensures Constraining([free], field) == []
      ensures Constraining([free] + [c], field) == if field in c.values then [c] else []
    {
      ConstrainingSnoc([], free, field);
      ConstrainingSnoc([free], c, field);
    }
  }

  /** A concrete departure from "monotonic": both intersections succeed, and the second source makes a value allowed
      that the baseline alone does not allow. */
  method FirstConstraintAllowsMore() returns (before: Outcome, after: Outcome)
    ensures before.Intersection? && Tracks(before.effective, [FREE_BASELINE])
    ensures after.Intersection? && Tracks(after.effective, [FREE_BASELINE] + [FIRST_CONSTRAINT])
    ensures !Allows(before.effective, REF, MAIN) && Allows(after.effective, REF, MAIN)
  {
    hide Constraining, Descend, FieldIs, Below, Narrows;
    NothingAdded([FREE_BASELINE]);
    FirstConstraint(FREE_BASELINE, FIRST_CONSTRAINT);
    before := Intersect(FREE_BASELINE, []);
    after := Intersect(FREE_BASELINE, [FIRST_CONSTRAINT]);
    assert FieldIs(before.effective, [FREE_BASELINE], REF);
    assert FieldIs(after.effective, [FREE_BASELINE] + [FIRST_CONSTRAINT], REF);
  }
}
