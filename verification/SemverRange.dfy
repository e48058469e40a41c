/** SemVer precedence and the intervals npm range operators stand for. */
module SemverRange {
  import opened Text
  import opened Orders

  /** node-semver's component ceiling, 2^53 - 1. */
  const MAX_COMPONENT: nat := 9007199254740991
  const MAX_UINT64: nat := 0xFFFF_FFFF_FFFF_FFFF

  // ---- Precedence (item 11 of SemVer 2.0.0).

  /** Dot-separated prerelease identifiers; None is a release. */
  datatype Version = Version(major: nat, minor: nat, patch: nat, pre: Option<seq<string>>)

  predicate Numeric(identifier: string) {
    forall c :: c in identifier ==> '0' <= c <= '9'
  }

  /** Numeric identifiers come first and compare by length, then digits; others compare as text. */
  predicate IdentifierBelow(a: string, b: string) {
    if Numeric(a) != Numeric(b) then Numeric(a)
    else if Numeric(a) && |a| != |b| then |a| < |b|
    else Below(a, b)
  }

  predicate PrereleaseBelow(a: seq<string>, b: seq<string>) {
    b != [] && (a == [] || IdentifierBelow(a[0], b[0]) || (a[0] == b[0] && PrereleaseBelow(a[1..], b[1..])))
  }

  predicate VersionBelow(a: Version, b: Version) {
    if a.major != b.major then a.major < b.major
    else if a.minor != b.minor then a.minor < b.minor
    else if a.patch != b.patch then a.patch < b.patch
    else a.pre.Some? && (b.pre.None? || PrereleaseBelow(a.pre.value, b.pre.value))
  }

  function Compare(a: Version, b: Version): int {
    if VersionBelow(a, b) then -1 else if a == b then 0 else 1
  }

  lemma IdentifierBelowIsTotalOrder()
    ensures StrictTotalOrder(IdentifierBelow)
  {
    hide Below, Numeric;
    BelowIsTotalOrder();
  }

  lemma {:induction false} PrereleaseTrichotomy(a: seq<string>, b: seq<string>)
    ensures !(PrereleaseBelow(a, b) && PrereleaseBelow(b, a))
    ensures PrereleaseBelow(a, b) || PrereleaseBelow(b, a) || a == b
  {
    hide IdentifierBelow;
    IdentifierBelowIsTotalOrder();
    if a != [] && b != [] {
      PrereleaseTrichotomy(a[1..], b[1..]);
      assert a == [a[0]] + a[1..] && b == [b[0]] + b[1..];
      assert IdentifierBelow(a[0], b[0]) ==> !IdentifierBelow(b[0], a[0]);
      assert a[0] == b[0] ==> !IdentifierBelow(a[0], b[0]);
    }
  }

  lemma {:induction false} PrereleaseTransitive(a: seq<string>, b: seq<string>, c: seq<string>)
    requires PrereleaseBelow(a, b) && PrereleaseBelow(b, c)
    ensures PrereleaseBelow(a, c)
  {
    hide IdentifierBelow;
    IdentifierBelowIsTotalOrder();
    if a != [] {
      if a[0] == b[0] == c[0] && !IdentifierBelow(a[0], c[0]) {
        assert IdentifierBelow(a[0], b[0]) <==> IdentifierBelow(a[0], c[0]);
        PrereleaseTransitive(a[1..], b[1..], c[1..]);
      } else if IdentifierBelow(a[0], b[0]) && IdentifierBelow(b[0], c[0]) {
        IdentifierTransitive(a[0], b[0], c[0]);
      }
    }
  }

  lemma IdentifierTransitive(a: string, b: string, c: string)
    requires IdentifierBelow(a, b) && IdentifierBelow(b, c)
    ensures IdentifierBelow(a, c)
  {
    hide IdentifierBelow;
    IdentifierBelowIsTotalOrder();
    assert !IdentifierBelow(c, b) && !IdentifierBelow(b, a);
    assert !IdentifierBelow(c, a);
  }

  /** Precedence totally orders versions. */
  lemma VersionTrichotomy(a: Version, b: Version)
    ensures !(VersionBelow(a, b) && VersionBelow(b, a)) && !VersionBelow(a, a)
    ensures VersionBelow(a, b) || VersionBelow(b, a) || a == b
  {
    if a.pre.Some? {
      PrereleaseTrichotomy(a.pre.value, a.pre.value);
      if b.pre.Some? {
        PrereleaseTrichotomy(a.pre.value, b.pre.value);
      }
    }
  }

  lemma VersionTransitive(a: Version, b: Version, c: Version)
    requires VersionBelow(a, b) && VersionBelow(b, c)
    ensures VersionBelow(a, c)
  {
    if a.pre.Some? && b.pre.Some? && c.pre.Some? && PrereleaseBelow(a.pre.value, b.pre.value) &&
       PrereleaseBelow(b.pre.value, c.pre.value) {
      PrereleaseTransitive(a.pre.value, b.pre.value, c.pre.value);
    }
  }

  function OnePointOh(pre: seq<string>): Version {
    Version(1, 0, 0, Some(pre))
  }

  /** The order item 11 of SemVer 2.0.0 gives as its example. */
  lemma StandardOrder()
    ensures VersionBelow(OnePointOh(["alpha"]), OnePointOh(["alpha", "1"]))
    ensures VersionBelow(OnePointOh(["alpha", "1"]), OnePointOh(["alpha", "beta"]))
    ensures VersionBelow(OnePointOh(["alpha", "beta"]), OnePointOh(["beta"]))
    ensures VersionBelow(OnePointOh(["beta"]), OnePointOh(["beta", "2"]))
    ensures VersionBelow(OnePointOh(["beta", "2"]), OnePointOh(["beta", "11"]))
    ensures VersionBelow(OnePointOh(["beta", "11"]), OnePointOh(["rc", "1"]))
    ensures VersionBelow(OnePointOh(["rc", "1"]), Version(1, 0, 0, None))
    ensures VersionBelow(Version(1, 0, 0, None), Version(2, 0, 0, None))
    ensures VersionBelow(Version(2, 0, 0, None), Version(2, 1, 0, None))
    ensures VersionBelow(Version(2, 1, 0, None), Version(2, 1, 1, None))
  {
    WordIsNoNumber("alpha");
    WordIsNoNumber("beta");
    WordIsNoNumber("rc");
    assert Below("alpha", "beta") && Below("beta", "rc");
    assert PrereleaseBelow(["1"], ["beta"]) && PrereleaseBelow(["2"], ["11"]);
    assert ["alpha", "1"][1..] == ["1"] && ["alpha", "beta"][1..] == ["beta"];
    assert ["beta", "2"][1..] == ["2"] && ["beta", "11"][1..] == ["11"];
    assert ["alpha"][1..] == [] && ["beta"][1..] == [];
  }

  lemma WordIsNoNumber(s: string)
    requires s != "" && !('0' <= s[0] <= '9')
    ensures !Numeric(s)
  {
    assert s[0] in s;
  }

  // ---- Partial versions and intervals.

  /** A partial version: the given components, the rest being wildcards. */
  datatype Partial = Partial(given: seq<nat>, pre: Option<seq<string>>)

  ghost predicate ValidPartial(p: Partial) {
    && |p.given| <= 3
    && (p.pre.Some? ==> Full(p))
    && forall i :: 0 <= i < |p.given| ==> p.given[i] <= MAX_COMPONENT
  }

  predicate Full(p: Partial) {
    |p.given| == 3
  }

  predicate Wildcard(p: Partial) {
    p.given == []
  }

  function Component(p: Partial, i: nat): nat {
    if i < |p.given| then p.given[i] else 0
  }

  function ZeroFilled(p: Partial): Version {
    Version(Component(p, 0), Component(p, 1), Component(p, 2), if Full(p) then p.pre else None)
  }

  function IncrementLastGiven(p: Partial): Version {
    if |p.given| >= 3 then Version(p.given[0], p.given[1], p.given[2] + 1, None)
    else if |p.given| == 2 then Version(p.given[0], p.given[1] + 1, 0, None)
    else Version(Component(p, 0) + 1, 0, 0, None)
  }

  datatype Limit = Limit(version: Version, inclusive: bool)

  datatype Bounds = Never | Between(lower: Option<Limit>, upper: Option<Limit>)

  const EVERYTHING := Between(None, None)

  predicate Contains(b: Bounds, v: Version) {
    && b.Between?
    && (b.lower.Some? ==>
          var c := Compare(v, b.lower.value.version);
          !(c < 0 || (c == 0 && !b.lower.value.inclusive)))
    && (b.upper.Some? ==>
          var c := Compare(v, b.upper.value.version);
          !(c > 0 || (c == 0 && !b.upper.value.inclusive)))
  }

  datatype Operator = Equal | AtLeast | Above | Less | AtMost

  function OperatorBounds(op: Operator, p: Partial): Bounds {
    if Wildcard(p) then
      if op == Equal || op == AtLeast || op == AtMost then EVERYTHING else Never
    else
      var zero := ZeroFilled(p);
      match op
      case Equal =>
        if Full(p) then Between(Some(Limit(zero, true)), Some(Limit(zero, true)))
        else Between(Some(Limit(zero, true)), Some(Limit(IncrementLastGiven(p), false)))
      case AtLeast => Between(Some(Limit(zero, true)), None)
      case Above => if Full(p) then Between(Some(Limit(zero, false)), None)
                    else Between(Some(Limit(IncrementLastGiven(p), true)), None)
      case Less => Between(None, Some(Limit(zero, false)))
      case AtMost => if Full(p) then Between(None, Some(Limit(zero, true)))
                     else Between(None, Some(Limit(IncrementLastGiven(p), false)))
  }

  function TildeBounds(p: Partial): Bounds {
    if Wildcard(p) then EVERYTHING
    else
      var upper := if |p.given| >= 2 then Version(p.given[0], p.given[1] + 1, 0, None)
                   else Version(p.given[0] + 1, 0, 0, None);
      Between(Some(Limit(ZeroFilled(p), true)), Some(Limit(upper, false)))
  }

  function CaretBounds(p: Partial): Bounds {
    if Wildcard(p) then EVERYTHING
    else
      var n := p.given;
      var upper :=
        if n[0] > 0 then Version(n[0] + 1, 0, 0, None)
        else if |n| >= 2 && n[1] > 0 then Version(n[0], n[1] + 1, 0, None)
        else if |n| >= 3 && n[2] > 0 then Version(n[0], n[1], n[2] + 1, None)
        else if |n| >= 3 then Version(n[0], n[1], 1, None)
        else if |n| >= 2 then Version(n[0], 1, 0, None)
        else Version(1, 0, 0, None);
      Between(Some(Limit(ZeroFilled(p), true)), Some(Limit(upper, false)))
  }

  /** A hyphen range; wildcards are no endpoints. */
  function HyphenBounds(left: Partial, right: Partial): Option<Bounds> {
    if Wildcard(left) || Wildcard(right) then None
    else
      Some(Between(Some(Limit(ZeroFilled(left), true)),
                   if Full(right) then Some(Limit(ZeroFilled(right), true))
                   else Some(Limit(IncrementLastGiven(right), false))))
  }

  // ---- What the operators mean.

  ghost predicate AtOrAbove(v: Version, w: Version) {
    v == w || VersionBelow(w, v)
  }

  predicate Release(v: Version) {
    v.pre.None?
  }

  function Components(v: Version): seq<nat> {
    [v.major, v.minor, v.patch]
  }

  /** `v` agrees with the first `n` given components of `p`. */
  ghost predicate Agrees(v: Version, p: Partial, n: nat)
    requires n <= |p.given| <= 3
  {
    forall i :: 0 <= i < n ==> Components(v)[i] == p.given[i]
  }

  /** `>p` and `<=p` split all versions between them, and so do `>=p` and `<p`. */
  lemma OperatorsPartition(p: Partial, v: Version)
    requires ValidPartial(p)
    ensures Contains(OperatorBounds(Above, p), v) <==> !Contains(OperatorBounds(AtMost, p), v)
    ensures Contains(OperatorBounds(AtLeast, p), v) <==> !Contains(OperatorBounds(Less, p), v)
  {
    VersionTrichotomy(v, ZeroFilled(p));
    VersionTrichotomy(v, IncrementLastGiven(p));
  }

  /** A hyphen range is `>=` its left end and `<=` its right end. */
  lemma HyphenIsBothEnds(left: Partial, right: Partial, v: Version)
    requires ValidPartial(left) && ValidPartial(right) && HyphenBounds(left, right).Some?
    ensures Contains(HyphenBounds(left, right).value, v) <==>
            Contains(OperatorBounds(AtLeast, left), v) && Contains(OperatorBounds(AtMost, right), v)
  {
  }

  /** Below the increment of the last given component means not past any given component. */
  lemma BelowIncrement(p: Partial, n: nat, v: Version)
    requires 1 <= n <= |p.given| <= 3 && Release(v)
    ensures Agrees(v, p, n) <==>
              && AtOrAbove(v, ZeroFilled(Partial(p.given[..n], None)))
              && VersionBelow(v, IncrementLastGiven(Partial(p.given[..n], None)))
  {
    var q := Partial(p.given[..n], None);
    assert forall i :: 0 <= i < n ==> q.given[i] == p.given[i];
    assert Components(v)[0] == v.major && Components(v)[1] == v.minor && Components(v)[2] == v.patch;
    if Agrees(v, p, n) {
      assert v.major == p.given[0];
      assert n >= 2 ==> v.minor == p.given[1];
      assert n >= 3 ==> v.patch == p.given[2];
    }
  }

  /** An X-range holds exactly the releases that agree with its given components; a full version only itself. */
  lemma XRangeIsAgreement(p: Partial, v: Version)
    requires ValidPartial(p) && Release(v)
    ensures Contains(OperatorBounds(Equal, p), v) <==>
            if Full(p) then v == ZeroFilled(p) else Agrees(v, p, |p.given|)
  {
    VersionTrichotomy(v, ZeroFilled(p));
    if 1 <= |p.given| < 3 {
      BelowIncrement(p, |p.given|, v);
      assert p.given[..|p.given|] == p.given;
    }
  }

  /** Components `~` holds fixed: major and, if given, minor. */
  function TildeFixed(p: Partial): nat {
    if |p.given| >= 2 then 2 else |p.given|
  }

  /** Components `^` holds fixed: through the leftmost non-zero given one, or all when all given ones are zero. */
  function CaretFixed(given: seq<nat>): (n: nat)
    ensures n <= |given|
    ensures given != [] ==> n >= 1
    ensures forall i :: 0 <= i < n - 1 ==> given[i] == 0
    ensures n < |given| ==> given[n - 1] > 0
  {
    if given == [] then 0 else if given[0] > 0 then 1 else 1 + CaretFixed(given[1..])
  }

  lemma AboveFullIsAbovePrefix(p: Partial, n: nat, v: Version)
    requires ValidPartial(p) && 1 <= n <= |p.given| && Release(v)
    requires AtOrAbove(v, ZeroFilled(p))
    ensures AtOrAbove(v, ZeroFilled(Partial(p.given[..n], None)))
  {
  }

  lemma TildeIsAgreement(p: Partial, v: Version)
    requires ValidPartial(p) && Release(v)
    ensures Contains(TildeBounds(p), v) <==>
            Wildcard(p) || (AtOrAbove(v, ZeroFilled(p)) && Agrees(v, p, TildeFixed(p)))
  {
    if !Wildcard(p) {
      VersionTrichotomy(v, ZeroFilled(p));
      BelowIncrement(p, TildeFixed(p), v);
      if AtOrAbove(v, ZeroFilled(p)) {
        AboveFullIsAbovePrefix(p, TildeFixed(p), v);
      }
      VersionTrichotomy(v, TildeBounds(p).upper.value.version);
    }
  }

  /** `^p` holds exactly the releases at or above `p` that agree with it on the components it fixes. */
  lemma CaretIsAgreement(p: Partial, v: Version)
    requires ValidPartial(p) && Release(v)
    ensures Contains(CaretBounds(p), v) <==>
            Wildcard(p) || (AtOrAbove(v, ZeroFilled(p)) && Agrees(v, p, CaretFixed(p.given)))
  {
    if !Wildcard(p) {
      var n := CaretFixed(p.given);
      CaretUpper(p);
      VersionTrichotomy(v, ZeroFilled(p));
      BelowIncrement(p, n, v);
      if AtOrAbove(v, ZeroFilled(p)) {
        AboveFullIsAbovePrefix(p, n, v);
      }
      VersionTrichotomy(v, CaretBounds(p).upper.value.version);
    }
  }

  lemma CaretUpper(p: Partial)
    requires ValidPartial(p) && !Wildcard(p)
    ensures CaretBounds(p).upper ==
            Some(Limit(IncrementLastGiven(Partial(p.given[..CaretFixed(p.given)], None)), false))
  {
    var n := p.given;
    assert |n| >= 2 ==> n[1..][0] == n[1];
    assert |n| >= 3 ==> n[1..][1..][0] == n[2];
    if n[0] > 0 {
      assert CaretFixed(n) == 1;
    } else if |n| >= 2 && n[1] > 0 {
      assert CaretFixed(n) == 2;
    } else {
      assert CaretFixed(n) == |n|;
      assert n[..|n|] == n;
    }
  }

  /** Increments stay far inside 64 bits. */
  lemma IncrementsDoNotOverflow(p: Partial)
    requires ValidPartial(p)
    ensures forall i :: 0 <= i < 3 ==> Components(IncrementLastGiven(p))[i] <= MAX_COMPONENT + 1 <= MAX_UINT64
    ensures forall b :: (b == TildeBounds(p) || b == CaretBounds(p)) && b.Between? && b.upper.Some? ==>
                          forall i :: 0 <= i < 3 ==> Components(b.upper.value.version)[i] <= MAX_COMPONENT + 1
  {
  }
}
