/** Orders on strings, and sorting by an order. */
module Orders {
  import opened Text

  /** Go's `<` on strings: lexicographic, a proper prefix first. */
  predicate Below(a: string, b: string) {
    b != [] && (a == [] || a[0] < b[0] || (a[0] == b[0] && Below(a[1..], b[1..])))
  }

  ghost predicate StrictWeakOrder<T(!new)>(less: (T, T) -> bool) {
    && (forall x, y {:trigger less(x, y)} :: less(x, y) ==> !less(y, x))
    && (forall x, y, z {:trigger less(x, y), less(y, z)} {:trigger less(x, z), less(x, y)} ::
          !less(x, y) && !less(y, z) ==> !less(x, z))
  }

  ghost predicate StrictTotalOrder<T(!new)>(less: (T, T) -> bool) {
    && StrictWeakOrder(less)
    && (forall x, y {:trigger less(x, y)} :: less(x, y) || less(y, x) || x == y)
  }

  lemma {:induction false} BelowIsAsymmetric(a: string, b: string)
    ensures !(Below(a, b) && Below(b, a))
    ensures Below(a, b) || Below(b, a) || a == b
  {
    if a != [] && b != [] && a[0] == b[0] {
      BelowIsAsymmetric(a[1..], b[1..]);
      assert a == [a[0]] + a[1..] && b == [b[0]] + b[1..];
    }
  }

  lemma {:induction false} BelowIsTransitive(a: string, b: string, c: string)
    requires Below(a, b) && Below(b, c)
    ensures Below(a, c)
  {
    if a != [] && a[0] == b[0] == c[0] {
      BelowIsTransitive(a[1..], b[1..], c[1..]);
    }
  }

  lemma BelowIsTotalOrder()
    ensures StrictTotalOrder(Below)
  {
    forall x, y
      ensures !(Below(x, y) && Below(y, x))
      ensures Below(x, y) || Below(y, x) || x == y
    {
      BelowIsAsymmetric(x, y);
    }
    forall x, y, z | !Below(x, y) && !Below(y, z)
      ensures !Below(x, z)
    {
      BelowIsAsymmetric(x, y);
      BelowIsAsymmetric(y, z);
      BelowIsAsymmetric(x, z);
      if x != y && y != z {
        BelowIsTransitive(z, y, x);
      }
    }
  }

  ghost predicate SortedBy<T>(less: (T, T) -> bool, s: seq<T>) {
    forall i, j :: 0 <= i < j < |s| ==> !less(s[j], s[i])
  }

  /** A sort: its contract says no more than that the result is ordered and holds the same elements. */
  method Sort<T(!new)>(less: (T, T) -> bool, s: seq<T>) returns (sorted: seq<T>)
    requires StrictWeakOrder(less)
    ensures SortedBy(less, sorted) && multiset(sorted) == multiset(s)
  {
    sorted := [];
    for n := 0 to |s|
      invariant SortedBy(less, sorted) && multiset(sorted) == multiset(s[..n])
    {
      var at := |sorted|;
      while at > 0 && less(s[n], sorted[at - 1])
        invariant 0 <= at <= |sorted|
        invariant forall i :: at <= i < |sorted| ==> less(s[n], sorted[i])
      {
        at := at - 1;
      }
      TakeNext(s, n);
      InsertKeepsOrder(less, sorted, at, s[n]);
      sorted := Insert(sorted, at, s[n]);
    }
    assert s[..|s|] == s;
  }

  function Insert<T>(s: seq<T>, at: nat, x: T): (r: seq<T>)
    requires at <= |s|
    ensures multiset(r) == multiset(s) + multiset{x}
  {
    assert s == s[..at] + s[at..];
    s[..at] + [x] + s[at..]
  }

  lemma InsertKeepsOrder<T(!new)>(less: (T, T) -> bool, s: seq<T>, at: nat, x: T)
    requires StrictWeakOrder(less) && SortedBy(less, s) && at <= |s|
    requires at > 0 ==> !less(x, s[at - 1])
    requires forall i :: at <= i < |s| ==> less(x, s[i])
    ensures SortedBy(less, Insert(s, at, x))
  {
    var r := Insert(s, at, x);
    forall i, j | 0 <= i < j < |r|
      ensures !less(r[j], r[i])
    {
      if j == at {
        assert i < at - 1 ==> !less(s[at - 1], s[i]);
      }
    }
  }

  lemma Head<T>(s: seq<T>)
    requires s != []
    ensures multiset(s) == multiset{s[0]} + multiset(s[1..])
    ensures s == [s[0]] + s[1..]
  {
    assert s == [s[0]] + s[1..];
  }

  lemma LeastIsFirst<T(!new)>(less: (T, T) -> bool, s: seq<T>, x: T)
    requires StrictTotalOrder(less) && SortedBy(less, s) && x in multiset(s)
    ensures s != [] && !less(x, s[0])
  {
    assert x in s;
    var i :| 0 <= i < |s| && s[i] == x;
    if i == 0 {
      assert less(x, x) ==> !less(x, x);
    }
  }

  /** Two ordered sequences of the same elements are equal. */
  lemma {:induction false} SortedIsUnique<T(!new)>(less: (T, T) -> bool, a: seq<T>, b: seq<T>)
    requires StrictTotalOrder(less)
    requires SortedBy(less, a) && SortedBy(less, b) && multiset(a) == multiset(b)
    ensures a == b
  {
    assert |multiset(a)| == |a| && |multiset(b)| == |b|;
    if a != [] {
      Head(a);
      Head(b);
      assert a[0] in multiset(a) && b[0] in multiset(b);
      LeastIsFirst(less, b, a[0]);
      LeastIsFirst(less, a, b[0]);
      assert a[0] == b[0];
      assert multiset(a[1..]) == multiset(a) - multiset{a[0]};
      assert multiset(b[1..]) == multiset(b) - multiset{b[0]};
      SortedIsUnique(less, a[1..], b[1..]);
    }
  }
}
