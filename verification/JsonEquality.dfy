/** `equalValues`: structural equality of parsed values, whatever the member order was. */
module JsonEquality {
  import opened Text
  import opened StrictJson

  /** For objects only the left members are walked; equal sizes do the rest. */
  predicate EqualValues(left: Value, right: Value) {
    match left
    case VNull => right.VNull?
    case VBool(b) => right.VBool? && b == right.b
    case VNum(n) => right.VNum? && n == right.n
    case VStr(s) => right.VStr? && s == right.s
    case VArray(items) =>
      && right.VArray? && |items| == |right.items|
      && forall i :: 0 <= i < |items| ==> EqualValues(items[i], right.items[i])
    case VObject(members) =>
      && right.VObject? && |members| == |right.members|
      && forall name :: name in members ==> name in right.members && EqualValues(members[name], right.members[name])
  }

  /** The one-directional member loop decides equality of values, so it is an equivalence relation. */
  lemma {:induction false} EqualValuesIsEquality(left: Value, right: Value)
    ensures EqualValues(left, right) <==> left == right
    decreases left
  {
    match left
    case VArray(items) =>
      if right.VArray? && |items| == |right.items| {
        forall i | 0 <= i < |items|
          ensures EqualValues(items[i], right.items[i]) <==> items[i] == right.items[i]
        {
          EqualValuesIsEquality(items[i], right.items[i]);
        }
        assert EqualValues(left, right) ==> items == right.items;
      }
    case VObject(members) =>
      if right.VObject? && |members| == |right.members| {
        forall name | name in members && name in right.members
          ensures EqualValues(members[name], right.members[name]) <==> members[name] == right.members[name]
        {
          EqualValuesIsEquality(members[name], right.members[name]);
        }
        if members.Keys <= right.members.Keys {
          SameSize(members.Keys, right.members.Keys);
        }
        assert EqualValues(left, right) ==> members == right.members;
      }
    case _ =>
  }

  lemma SameSize<T>(a: set<T>, b: set<T>)
    requires a <= b && |a| == |b|
    ensures a == b
  {
    assert |b| == |a| + |b - a| by { assert b == a + (b - a); }
    assert b - a == {};
  }

  // ---- Documents that differ only in member order.

  /** `at` sends each of the first `n` indices to one of the first `n`, no two to the same. */
  ghost predicate Permutation(at: seq<nat>, n: nat) {
    && |at| == n
    && (forall i :: 0 <= i < n ==> at[i] < n)
    && (forall i, j :: 0 <= i < j < n ==> at[i] != at[j])
  }

  ghost predicate Reordered(a: Doc, b: Doc) {
    match a
    case DArray(items) =>
      b.DArray? && |items| == |b.items| && forall i :: 0 <= i < |items| ==> Reordered(items[i], b.items[i])
    case DObject(members) =>
      && b.DObject? && |members| == |b.members|
      && exists at :: Permutation(at, |members|) &&
           forall i :: 0 <= i < |members| ==>
             && members[i].name == b.members[at[i]].name
             && Reordered(members[i].value, b.members[at[i]].value)
    case _ => a == b
  }

  ghost predicate DistinctNames(members: seq<Member>) {
    forall i, j :: 0 <= i < j < |members| ==> members[i].name != members[j].name
  }

  lemma {:induction false} IndexOfName(members: seq<Member>, name: string) returns (i: nat)
    requires name in MembersMap(members)
    ensures i < |members| && members[i].name == name
  {
    if Last(members).name == name {
      i := |members| - 1;
    } else {
      i := IndexOfName(Init(members), name);
    }
  }

  lemma {:induction false} LookupMember(members: seq<Member>, i: nat)
    requires DistinctNames(members) && i < |members|
    ensures members[i].name in MembersMap(members)
    ensures MembersMap(members)[members[i].name] == Meaning(members[i].value)
  {
    if i < |members| - 1 {
      LookupMember(Init(members), i);
    }
  }

  lemma {:induction false} MapSize(members: seq<Member>)
    requires DistinctNames(members)
    ensures |MembersMap(members)| == |members|
  {
    if members != [] {
      var front, last := Init(members), Last(members);
      MapSize(front);
      if last.name in MembersMap(front) {
        var i := IndexOfName(front, last.name);
        assert false;
      }
    }
  }

  /** Two accepted documents mean the same exactly when they differ only in member order, at any depth. */
  lemma {:induction false} SameMeaningIffReordered(a: Doc, b: Doc)
    requires Distinct(a) && Distinct(b)
    ensures Meaning(a) == Meaning(b) <==> Reordered(a, b)
    decreases a
  {
    match a
    case DArray(items) =>
      if b.DArray? && |items| == |b.items| {
        forall i | 0 <= i < |items|
          ensures Meaning(items[i]) == Meaning(b.items[i]) <==> Reordered(items[i], b.items[i])
        {
          SameMeaningIffReordered(items[i], b.items[i]);
        }
        assert Meaning(a) == Meaning(b) ==> forall i :: 0 <= i < |items| ==> Meanings(items)[i] == Meanings(b.items)[i];
        if Reordered(a, b) {
          assert Meanings(items) == Meanings(b.items);
        }
      }
      if b.DArray? && Meaning(a) == Meaning(b) {
        assert |Meanings(items)| == |Meanings(b.items)|;
      }
    case DObject(members) =>
      if b.DObject? {
        forall i, j | 0 <= i < |members| && 0 <= j < |b.members|
          ensures Meaning(members[i].value) == Meaning(b.members[j].value) <==>
                  Reordered(members[i].value, b.members[j].value)
        {
          SameMeaningIffReordered(members[i].value, b.members[j].value);
        }
        if Reordered(a, b) {
          var at: seq<nat> :| Permutation(at, |members|) &&
            forall i :: 0 <= i < |members| ==>
              && members[i].name == b.members[at[i]].name
              && Reordered(members[i].value, b.members[at[i]].value);
          ReorderedMembersMeanTheSame(members, b.members, at);
        }
        if Meaning(a) == Meaning(b) {
          var at := FindPermutation(members, b.members);
        }
      }
    case _ =>
  }

  lemma ReorderedMembersMeanTheSame(a: seq<Member>, b: seq<Member>, at: seq<nat>)
    requires DistinctNames(a) && DistinctNames(b) && |a| == |b| && Permutation(at, |a|)
    requires forall i :: 0 <= i < |a| ==> a[i].name == b[at[i]].name && Meaning(a[i].value) == Meaning(b[at[i]].value)
    ensures MembersMap(a) == MembersMap(b)
  {
    hide MembersMap, Meaning, DistinctNames;
    MapSize(a);
    MapSize(b);
    var left, right := MembersMap(a), MembersMap(b);
    forall name | name in left
      ensures name in right && right[name] == left[name]
    {
      var i := IndexOfName(a, name);
      LookupMember(a, i);
      LookupMember(b, at[i]);
    }
    SameSize(left.Keys, right.Keys);
  }

  lemma FindPermutation(a: seq<Member>, b: seq<Member>) returns (at: seq<nat>)
    requires DistinctNames(a) && DistinctNames(b) && MembersMap(a) == MembersMap(b)
    ensures |a| == |b| && Permutation(at, |a|)
    ensures forall i :: 0 <= i < |a| ==> a[i].name == b[at[i]].name && Meaning(a[i].value) == Meaning(b[at[i]].value)
  {
    hide MembersMap, Meaning;
    MapSize(a);
    MapSize(b);
    at := [];
    while |at| < |a|
      invariant |at| <= |a|
      invariant forall i :: 0 <= i < |at| ==>
                  at[i] < |b| && a[i].name == b[at[i]].name && Meaning(a[i].value) == Meaning(b[at[i]].value)
    {
      LookupMember(a, |at|);
      var j := IndexOfName(b, a[|at|].name);
      LookupMember(b, j);
      at := at + [j];
    }
  }

  /** `Equal` on two accepted token streams: true exactly for documents that differ only in member order. */
  lemma EqualIffReordered(left: seq<Token>, right: seq<Token>)
    requires ParseStrict(left).Parsed? && ParseStrict(right).Parsed?
    ensures EqualValues(Meaning(ParseStrict(left).value), Meaning(ParseStrict(right).value)) <==>
            Reordered(ParseStrict(left).value, ParseStrict(right).value)
  {
    var a, b := ParseStrict(left).value, ParseStrict(right).value;
    AcceptsExactlyStrictDocuments(left, a);
    AcceptsExactlyStrictDocuments(right, b);
    EqualValuesIsEquality(Meaning(a), Meaning(b));
    SameMeaningIffReordered(a, b);
  }
}
