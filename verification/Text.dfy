/** Byte strings, splitting and ordering shared by the models. */
module Text {

  newtype byte = b: int | 0 <= b < 256

  type bytes = seq<byte>

  datatype Option<+T> = None | Some(value: T)

  /** The bytes of an ASCII literal. */
  function Ascii(s: string): (b: bytes)
    ensures |b| == |s|
  {
    seq(|s|, i requires 0 <= i < |s| => if s[i] as int < 128 then s[i] as byte else 63)
  }

  lemma AsciiAppend(s: string, t: string)
    ensures Ascii(s + t) == Ascii(s) + Ascii(t)
  {
  }

  predicate HasPrefix<T(==)>(s: seq<T>, prefix: seq<T>) {
    |prefix| <= |s| && s[..|prefix|] == prefix
  }

  predicate HasSuffix<T(==)>(s: seq<T>, suffix: seq<T>) {
    |suffix| <= |s| && s[|s| - |suffix|..] == suffix
  }

  function Init<T>(s: seq<T>): seq<T>
    requires s != []
  {
    s[..|s| - 1]
  }

  function Last<T>(s: seq<T>): T
    requires s != []
  {
    s[|s| - 1]
  }

  lemma InitLast<T>(s: seq<T>)
    requires s != []
    ensures Init(s) + [Last(s)] == s
  {
  }

  lemma DropPrefix<T>(p: seq<T>, more: seq<T>, n: nat)
    requires n <= |p|
    ensures (p + more)[n..] == p[n..] + more
  {
  }

  lemma TakeDrop<T>(s: seq<T>, n: nat)
    requires n <= |s|
    ensures s[..n] + s[n..] == s
  {
  }

  lemma Assoc<T>(a: seq<T>, b: seq<T>, c: seq<T>)
    ensures a + (b + c) == a + b + c
  {
  }

  lemma NothingAdded<T>(a: seq<T>)
    ensures a + [] == a && [] + a == a
  {
  }

  lemma TakeNext<T>(a: seq<T>, i: nat)
    requires i < |a|
    ensures a[..i + 1] == a[..i] + [a[i]]
    ensures a[..i] + a[i..] == a
  {
  }

  /** `strings.Split` for a one-element separator: the pieces between separators, never empty. */
  function Split<T(==)>(s: seq<T>, sep: T): (pieces: seq<seq<T>>)
    ensures |pieces| >= 1
  {
    if s == [] then [[]]
    else
      var front := Split(Init(s), sep);
      if Last(s) == sep then front + [[]] else Init(front) + [Last(front) + [Last(s)]]
  }

  /** `strings.Join`. */
  function Join<T>(pieces: seq<seq<T>>, sep: T): seq<T> {
    if pieces == [] then []
    else if |pieces| == 1 then pieces[0]
    else Join(Init(pieces), sep) + [sep] + Last(pieces)
  }

  lemma SplitSnoc<T>(s: seq<T>, x: T, sep: T)
    ensures Split(s + [x], sep) ==
            if x == sep then Split(s, sep) + [[]] else Init(Split(s, sep)) + [Last(Split(s, sep)) + [x]]
    ensures Init(Split(s + [x], sep)) == if x == sep then Split(s, sep) else Init(Split(s, sep))
    ensures Last(Split(s + [x], sep)) == if x == sep then [] else Last(Split(s, sep)) + [x]
  {
    assert Init(s + [x]) == s;
  }

  lemma AppendToLast<T>(a: seq<seq<T>>, b: seq<seq<T>>, x: T)
    requires b != []
    ensures Init(a + b) + [Last(a + b) + [x]] == a + (Init(b) + [Last(b) + [x]])
    ensures a + b + [[]] == a + (b + [[]])
  {
  }

  lemma {:induction false} SplitWithoutSeparator<T>(s: seq<T>, sep: T)
    requires sep !in s
    ensures Split(s, sep) == [s]
  {
    if s != [] {
      SplitWithoutSeparator(Init(s), sep);
      assert s == Init(s) + [Last(s)];
    }
  }

  lemma {:induction false} SplitAtSeparator<T>(left: seq<T>, right: seq<T>, sep: T)
    ensures Split(left + [sep] + right, sep) == Split(left, sep) + Split(right, sep)
  {
    if right == [] {
      SplitSnoc(left, sep, sep);
      assert left + [sep] + right == left + [sep];
    } else {
      SplitAtSeparator(left, Init(right), sep);
      SplitAtSeparatorStep(left + [sep], right, Split(left, sep), sep);
    }
  }

  lemma SplitAtSeparatorStep<T>(head: seq<T>, right: seq<T>, before: seq<seq<T>>, sep: T)
    requires right != []
    requires Split(head + Init(right), sep) == before + Split(Init(right), sep)
    ensures Split(head + right, sep) == before + Split(right, sep)
  {
    InitLast(right);
    SplitSnocAfter(head + Init(right), Init(right), before, Last(right), sep);
    assert head + (Init(right) + [Last(right)]) == head + Init(right) + [Last(right)];
  }

  lemma SplitSnocAfter<T>(s: seq<T>, r: seq<T>, before: seq<seq<T>>, x: T, sep: T)
    requires Split(s, sep) == before + Split(r, sep)
    ensures Split(s + [x], sep) == before + Split(r + [x], sep)
  {
    SplitSnoc(s, x, sep);
    SplitSnoc(r, x, sep);
    AppendToLast(before, Split(r, sep), x);
  }

  /** Splitting undoes joining when no piece holds the separator. */
  lemma {:induction false} SplitJoin<T>(pieces: seq<seq<T>>, sep: T)
    requires pieces != []
    requires forall k :: 0 <= k < |pieces| ==> sep !in pieces[k]
    ensures Split(Join(pieces, sep), sep) == pieces
  {
    var last := Last(pieces);
    SplitWithoutSeparator(last, sep);
    if |pieces| > 1 {
      SplitJoin(Init(pieces), sep);
      SplitAtSeparator(Join(Init(pieces), sep), last, sep);
    }
    assert pieces == Init(pieces) + [last];
  }

  lemma JoinSnoc<T>(pieces: seq<seq<T>>, last: seq<T>, sep: T)
    requires pieces != []
    ensures Join(pieces + [last], sep) == Join(pieces, sep) + [sep] + last
  {
    assert Init(pieces + [last]) == pieces;
  }

  /** Elements of `pieces` that are not empty, in order. */
  function NonEmpty<T(==)>(pieces: seq<seq<T>>): seq<seq<T>> {
    if pieces == [] then []
    else
      var last := Last(pieces);
      NonEmpty(Init(pieces)) + if last == [] then [] else [last]
  }

  lemma NonEmptyNothing<T>(pieces: seq<seq<T>>)
    ensures NonEmpty(pieces[..0]) == []
  {
  }

  lemma NonEmptyInit<T>(pieces: seq<seq<T>>)
    requires pieces != []
    ensures NonEmpty(pieces) == NonEmpty(Init(pieces)) + if Last(pieces) == [] then [] else [Last(pieces)]
  {
  }

  lemma NonEmptySnoc<T>(pieces: seq<seq<T>>, last: seq<T>)
    ensures NonEmpty(pieces + [last]) == NonEmpty(pieces) + if last == [] then [] else [last]
  {
    assert Init(pieces + [last]) == pieces;
  }

  /** The chunks one after the other. */
  function Concat(chunks: seq<bytes>): bytes {
    if chunks == [] then [] else Concat(Init(chunks)) + Last(chunks)
  }

  // ---- White space.

  /** `unicode.IsSpace`, on the code point. */
  predicate SpaceCode(n: int) {
    || 9 <= n <= 13 || n == 32 || n == 0x85 || n == 0xA0 || n == 0x1680 || 0x2000 <= n <= 0x200A
    || n == 0x2028 || n == 0x2029 || n == 0x202F || n == 0x205F || n == 0x3000
  }

  predicate IsSpace(c: char) {
    SpaceCode(c as int)
  }

  function OneSpace(s: string): (t: string)
    ensures |t| == |s| && forall i :: 0 <= i < |s| ==> t[i] == if IsSpace(s[i]) then ' ' else s[i]
  {
    seq(|s|, i requires 0 <= i < |s| => if IsSpace(s[i]) then ' ' else s[i])
  }

  predicate NonEmptyFields(fields: seq<string>) {
    forall i :: 0 <= i < |fields| ==> fields[i] != ""
  }

  lemma {:induction false} NonEmptyHoldsNoEmpty<T>(pieces: seq<seq<T>>)
    ensures forall i :: 0 <= i < |NonEmpty(pieces)| ==> NonEmpty(pieces)[i] != []
  {
    if pieces != [] {
      NonEmptyHoldsNoEmpty(Init(pieces));
    }
  }

  /** `strings.Fields`. */
  function Fields(s: string): (fields: seq<string>)
    ensures NonEmptyFields(fields)
  {
    NonEmptyHoldsNoEmpty(Split(OneSpace(s), ' '));
    NonEmpty(Split(OneSpace(s), ' '))
  }

  // ---- Results read from the front.

  /** What was read first, put before what the rest gives. */
  function Continued<T>(first: seq<T>, rest: Option<seq<T>>): Option<seq<T>> {
    if rest.None? then None else Some(first + rest.value)
  }

  lemma ContinuedNothing<T>(rest: Option<seq<T>>)
    ensures Continued([], rest) == rest
  {
    if rest.Some? {
      NothingAdded(rest.value);
    }
  }

  lemma ContinuedSnoc<T>(first: seq<T>, x: T, rest: Option<seq<T>>)
    ensures Continued(first + [x], rest) == Continued(first, Continued([x], rest))
  {
    if rest.Some? {
      Assoc(first, [x], rest.value);
    }
  }

  // ---- Searching.

  function CutPrefix<T(==)>(s: seq<T>, prefix: seq<T>): Option<seq<T>> {
    if HasPrefix(s, prefix) then Some(s[|prefix|..]) else None
  }

  function TrimPrefix<T(==)>(s: seq<T>, prefix: seq<T>): seq<T> {
    if HasPrefix(s, prefix) then s[|prefix|..] else s
  }

  function TrimSuffix<T(==)>(s: seq<T>, suffix: seq<T>): seq<T> {
    if HasSuffix(s, suffix) then s[..|s| - |suffix|] else s
  }

  /** The first position where `sep` occurs. */
  function IndexOf<T(==)>(s: seq<T>, sep: seq<T>): (at: Option<nat>)
    ensures at.Some? ==> at.value + |sep| <= |s| && HasPrefix(s[at.value..], sep)
    ensures forall i :: 0 <= i <= |s| && (at.Some? ==> i < at.value) ==> !HasPrefix(s[i..], sep)
  {
    if HasPrefix(s, sep) then
      assert s[0..] == s;
      Some(0)
    else if s == [] then None
    else
      var rest := IndexOf(s[1..], sep);
      assert forall i :: 1 <= i <= |s| ==> s[i..] == s[1..][i - 1..];
      assert s[0..] == s;
      if rest.None? then None else Some(rest.value + 1)
  }

  datatype Halves<T> = Halves(before: seq<T>, after: seq<T>, found: bool)

  /** `strings.Cut`. */
  function Cut<T(==)>(s: seq<T>, sep: seq<T>): Halves<T> {
    var at := IndexOf(s, sep);
    if at.None? then Halves(s, [], false) else Halves(s[..at.value], s[at.value + |sep|..], true)
  }

  /** `strings.Split` for a separator of any positive length. */
  function SplitOn<T(==)>(s: seq<T>, sep: seq<T>): seq<seq<T>>
    requires sep != []
    decreases |s|
  {
    var at := IndexOf(s, sep);
    if at.None? then [s] else [s[..at.value]] + SplitOn(s[at.value + |sep|..], sep)
  }

  lemma IndexIsUnique<T>(s: seq<T>, sep: seq<T>, at: nat)
    requires at <= |s| && HasPrefix(s[at..], sep)
    requires forall i :: 0 <= i < at ==> !HasPrefix(s[i..], sep)
    ensures IndexOf(s, sep) == Some(at)
  {
  }

  /** The first occurrence of a two-element separator in `a + sep + b` is the first in `a`, or the one between. */
  lemma IndexAcross<T>(a: seq<T>, b: seq<T>, sep: seq<T>)
    requires |sep| == 2 && sep[0] != sep[1]
    ensures IndexOf(a + sep + b, sep) == if IndexOf(a, sep).Some? then IndexOf(a, sep) else Some(|a|)
  {
    var s := a + sep + b;
    var at := if IndexOf(a, sep).Some? then IndexOf(a, sep).value else |a|;
    forall i | 0 <= i < at
      ensures !HasPrefix(s[i..], sep)
    {
      assert !HasPrefix(a[i..], sep);
      if i + 2 <= |a| {
        assert s[i..][..2] == a[i..][..2];
      } else {
        assert s[i..][1] == sep[0];
      }
    }
    if at < |a| {
      assert s[at..][..2] == a[at..][..2];
    } else {
      assert s[at..][..2] == sep;
    }
    IndexIsUnique(s, sep, at);
  }

  lemma SplitOnAt<T>(before: seq<T>, after: seq<T>, sep: seq<T>)
    requires sep != [] && IndexOf(before + sep + after, sep) == Some(|before|)
    ensures SplitOn(before + sep + after, sep) == [before] + SplitOn(after, sep)
  {
    var s := before + sep + after;
    assert s[..|before|] == before && s[|before| + |sep|..] == after;
  }

  lemma {:induction false} SplitOnAcross<T>(a: seq<T>, b: seq<T>, sep: seq<T>)
    requires |sep| == 2 && sep[0] != sep[1]
    ensures SplitOn(a + sep + b, sep) == SplitOn(a, sep) + SplitOn(b, sep)
    decreases |a|
  {
    hide IndexOf;
    IndexAcross(a, b, sep);
    var at := IndexOf(a, sep);
    if at.None? {
      SplitOnAt(a, b, sep);
    } else {
      hide SplitOn;
      var before, rest := a[..at.value], a[at.value + 2..];
      assert a == before + sep + rest;
      SplitOnAcross(rest, b, sep);
      Assoc(before + sep, rest, sep + b);
      Assoc(rest, sep, b);
      assert a + sep + b == before + sep + (rest + sep + b);
      SplitOnAt(before, rest + sep + b, sep);
      SplitOnAt(before, rest, sep);
      Assoc([before], SplitOn(rest, sep), SplitOn(b, sep));
    }
  }
}
