/** When a relayed line can hold a secret although every occurrence of it was replaced. */
module Exposure {
  import opened Text
  import opened Utf8
  import opened Redaction
  import opened Collection
  import opened Relay

  ghost predicate Occurs(t: bytes, s: bytes) {
    exists at :: 0 <= at <= |s| && HasPrefix(s[at..], t)
  }

  /** Written `d` bytes after the start of `mark` (before it when negative), `t` shares a place with `mark` and agrees
      with it on every shared place. */
  predicate Overlays(mark: bytes, t: bytes, d: int) {
    && -|t| < d < |mark|
    && forall k :: 0 <= k < |t| && 0 <= k + d < |mark| ==> t[k] == mark[k + d]
  }

  /** No part of `t` can be taken for a part of `mark`. */
  ghost predicate Apart(mark: bytes, t: bytes) {
    forall d: int :: !Overlays(mark, t, d)
  }

  /** Text that begins inside a marker overlays it there. */
  lemma MeetsFrom(mark: bytes, r: bytes, t: bytes, at: nat)
    requires t != [] && at < |mark| && HasPrefix((mark + r)[at..], t)
    ensures Overlays(mark, t, at)
  {
    assert forall k :: 0 <= k < |t| && k + at < |mark| ==> t[k] == (mark + r)[at..][k] == mark[k + at];
  }

  /** Text whose part from `j` on begins with a marker overlays it `j` places earlier. */
  lemma MeetsLater(mark: bytes, r: bytes, t: bytes, j: nat)
    requires j < |t| && mark != [] && HasPrefix(mark + r, t[j..])
    ensures Overlays(mark, t, -(j as int))
  {
    assert forall k :: j <= k < |t| && k - j < |mark| ==> t[k] == t[j..][k - j] == (mark + r)[k - j] == mark[k - j];
  }

  lemma OverlayLater(mark: bytes, t: bytes, q: nat)
    requires q + 1 < |t| && Overlays(mark, t[1..], -(q as int))
    ensures Overlays(mark, t, -(q as int) - 1)
  {
    assert forall k :: 1 <= k < |t| ==> t[k] == t[1..][k - 1];
  }

  lemma PrefixAcross<T>(a: seq<T>, r: seq<T>, t: seq<T>)
    ensures |t| <= |a| ==> (HasPrefix(a + r, t) <==> HasPrefix(a, t))
    ensures |t| >= |a| ==> (HasPrefix(a + r, t) <==> t[..|a|] == a && HasPrefix(r, t[|a|..]))
  {
    if |t| <= |a| {
      assert (a + r)[..|t|] == a[..|t|];
    }
    if |t| >= |a| && |t| <= |a + r| {
      assert (a + r)[..|t|] == a + r[..|t| - |a|];
      assert t == t[..|a|] + t[|a|..];
    }
  }

  lemma DropDrop<T>(s: seq<T>, m: nat, n: nat)
    requires m + n <= |s|
    ensures s[m..][n..] == s[m + n..]
  {
  }

  lemma DropBeyond<T>(a: seq<T>, b: seq<T>, at: nat)
    requires |a| <= at <= |a + b|
    ensures (a + b)[at..] == b[at - |a|..]
  {
  }

  // ---- Redaction.

  /** The rewritten stream starts with `t`: its first `p` bytes are kept ones, and then `t` runs into a marker. */
  lemma {:induction false} KeptUntilMark(secrets: seq<bytes>, s: bytes, t: bytes) returns (p: nat)
    requires HasPrefix(Redact(secrets, s), t)
    ensures p <= |t| && p <= |s| && HasPrefix(s, t[..p])
    ensures forall i :: 0 <= i < p ==> Longest(secrets, s[i..]) == 0
    ensures p < |t| ==> Longest(secrets, s[p..]) > 0 && Overlays(MARK, t, -(p as int))
    decreases |t|
  {
    hide Ascii, Longest, Redaction.Redact, Overlays;
    if t == [] {
      return 0;
    }
    NothingShown(secrets, 0, t);
    assert s != [] && s[0..] == s && t[0..] == t;
    hide HasPrefix;
    LongestIsLongest(secrets, s);
    var n := Longest(secrets, s);
    ScanStep(secrets, s, n);
    if n > 0 {
      MeetsLater(MARK, Redact(secrets, s[n..]), t, 0);
      NothingIsPrefix(s, t);
      return 0;
    }
    PrefixAcross([s[0]], Redact(secrets, s[1..]), t);
    var q := KeptUntilMark(secrets, s[1..], t[1..]);
    p := q + 1;
    KeptOneMore(s, t, q);
    DropDrop(s, 1, q);
    if p < |t| {
      OverlayLater(MARK, t, q);
    }
    KeptFromStart(secrets, s, q);
  }

  lemma NothingIsPrefix(s: bytes, t: bytes)
    ensures HasPrefix(s, t[..0])
  {
  }

  lemma KeptFromStart(secrets: seq<bytes>, s: bytes, q: nat)
    requires s != [] && q < |s| && Longest(secrets, s) == 0
    requires forall i :: 0 <= i < q ==> Longest(secrets, s[1..][i..]) == 0
    ensures forall i :: 0 <= i < q + 1 ==> Longest(secrets, s[i..]) == 0
  {
    hide Longest;
    forall i | 0 <= i < q + 1
      ensures Longest(secrets, s[i..]) == 0
    {
      if i == 0 {
        assert s[i..] == s;
      } else {
        DropDrop(s, 1, i - 1);
      }
    }
  }

  lemma KeptOneMore(s: bytes, t: bytes, q: nat)
    requires s != [] && q < |t| && t[..1] == [s[0]] && HasPrefix(s[1..], t[1..][..q])
    ensures HasPrefix(s, t[..q + 1])
  {
    assert t[..q + 1] == t[..1] + t[1..][..q] && s == [s[0]] + s[1..];
    PrefixAcross([s[0]], s[1..], t[..q + 1]);
    assert t[..q + 1][1..] == t[1..][..q];
  }

  /** From position `where` on, `p` bytes are kept that begin `t`, and then something is replaced. */
  ghost predicate BeginsInKept(secrets: seq<bytes>, s: bytes, t: bytes, p: int, where: nat) {
    && 0 < p <= |t| && where + p <= |s| && HasPrefix(s[where..], t[..p])
    && Longest(secrets, s[where + p..]) > 0
    && forall j :: where <= j < where + p ==> Longest(secrets, s[j..]) == 0
  }

  /** Where a secret shows after redaction, a marker takes part in it; a secret that begins before the marker does so in
      kept bytes. */
  lemma {:induction false} ShownSecretMeetsMark(secrets: seq<bytes>, s: bytes, at: nat, t: bytes)
    returns (d: int, where: nat)
    requires t in secrets && t != []
    requires at <= |Redact(secrets, s)| && HasPrefix(Redact(secrets, s)[at..], t)
    ensures Overlays(MARK, t, d)
    ensures d < 0 ==> BeginsInKept(secrets, s, t, -d, where)
    decreases |s|
  {
    hide Ascii, Longest, Redaction.Redact, Overlays, BeginsInKept;
    NothingShown(secrets, at, t);
    hide HasPrefix;
    LongestIsLongest(secrets, s);
    var n := Longest(secrets, s);
    ScanStep(secrets, s, n);
    if n > 0 && at < |MARK| {
      MeetsFrom(MARK, Redact(secrets, s[n..]), t, at);
      return at, 0;
    }
    if n == 0 && at == 0 {
      d := ShownFromStart(secrets, s, t);
      return d, 0;
    }
    var raw, head := if n > 0 then n else 1, if n > 0 then MARK else [s[0]];
    DropBeyond(head, Redact(secrets, s[raw..]), at);
    d, where := ShownSecretMeetsMark(secrets, s[raw..], at - |head|, t);
    if d < 0 {
      BeginsLater(secrets, s, t, -d, raw, where);
    }
    where := raw + where;
  }

  lemma NothingShown(secrets: seq<bytes>, at: nat, t: bytes)
    requires t != []
    ensures Redact(secrets, []) == []
    ensures at == 0 ==> !HasPrefix(Redact(secrets, [])[at..], t)
  {
  }

  /** The case of a secret shown at the very start, in a kept byte. */
  lemma ShownFromStart(secrets: seq<bytes>, s: bytes, t: bytes) returns (d: int)
    requires t in secrets && t != [] && Longest(secrets, s) == 0 && HasPrefix(Redact(secrets, s)[0..], t)
    ensures Overlays(MARK, t, d) && d < 0 && BeginsInKept(secrets, s, t, -d, 0)
  {
    hide Ascii, Longest, Redaction.Redact, Overlays;
    assert Redact(secrets, s)[0..] == Redact(secrets, s) && s[0..] == s && t[..|t|] == t;
    var p := KeptUntilMark(secrets, s, t);
    LongestIsLongest(secrets, s);
    d := -(p as int);
  }

  lemma BeginsLater(secrets: seq<bytes>, s: bytes, t: bytes, p: int, raw: nat, where: nat)
    requires raw <= |s| && BeginsInKept(secrets, s[raw..], t, p, where)
    ensures BeginsInKept(secrets, s, t, p, raw + where)
  {
    hide Longest, HasPrefix;
    DropDrop(s, raw, where);
    DropDrop(s, raw, where + p);
    forall j | raw + where <= j < raw + where + p
      ensures Longest(secrets, s[j..]) == 0
    {
      DropDrop(s, raw, j - raw);
    }
  }

  /** A secret that no part of the marker can be taken for never shows after redaction, whatever the other secrets. */
  lemma RedactionHidesApart(secrets: seq<bytes>, s: bytes, t: bytes)
    requires t in secrets && t != [] && Apart(MARK, t)
    ensures !Occurs(t, Redact(secrets, s))
  {
    if Occurs(t, Redact(secrets, s)) {
      var at :| 0 <= at <= |Redact(secrets, s)| && HasPrefix(Redact(secrets, s)[at..], t);
      var d, where := ShownSecretMeetsMark(secrets, s, at, t);
      assert false;
    }
  }

  // ---- Exactly which lone secrets show.

  /** `t` begins nowhere in its own first `p` bytes followed by itself, before those `p` bytes are over. */
  predicate NotEarlier(t: bytes, p: nat)
    requires p <= |t|
  {
    forall i :: 0 <= i < p ==> !HasPrefix((t[..p] + t)[i..], t)
  }

  /** The marker can be taken for a part of `t`, and when `t` begins before the marker the bytes there stay kept. */
  ghost predicate Exposable(t: bytes) {
    exists d: int :: Overlays(MARK, t, d) && (d < 0 ==> NotEarlier(t, -d))
  }

  /** Some stream shows the secret after redaction. */
  ghost predicate Survives(t: bytes) {
    exists s: bytes :: Occurs(t, Redact([t], s))
  }

  lemma LongestOfOne(t: bytes, s: bytes)
    requires t != []
    ensures Longest([t], s) == if HasPrefix(s, t) then |t| else 0
  {
    assert [t][..0] == [];
    assert Longest([], s) == 0;
  }

  /** The secret itself, and too few bytes for another one. */
  lemma RedactFirst(t: bytes, y: bytes)
    requires t != [] && |y| < |t|
    ensures Redact([t], t + y) == MARK + y
  {
    hide Ascii, Longest, Redaction.Redact;
    LongestOfOne(t, t + y);
    LongestIsLongest([t], t + y);
    assert (t + y)[..|t|] == t && (t + y)[|t|..] == y;
    ScanStep([t], t + y, |t|);
    RedactLeavesOthers([t], y);
  }

  /** Kept bytes, the secret itself, and too few bytes for another one. */
  lemma {:induction false} RedactAround(t: bytes, x: bytes, y: bytes)
    requires t != [] && |y| < |t|
    requires forall i :: 0 <= i < |x| ==> !HasPrefix((x + t)[i..], t)
    ensures Redact([t], x + t + y) == x + MARK + y
    decreases |x|
  {
    hide Ascii, Longest, Redaction.Redact, HasPrefix;
    if x == [] {
      RedactFirst(t, y);
      NothingAdded(t);
      NothingAdded(MARK);
    } else {
      var s, rest := x + t + y, x[1..];
      assert (x + t)[0..] == x + t && s[0] == x[0];
      PrefixAcross(x + t, y, t);
      LongestOfOne(t, s);
      ScanStep([t], s, 0);
      assert x == [x[0]] + rest;
      Assoc([x[0]], rest, t);
      Assoc([x[0]], rest + t, y);
      assert s[1..] == rest + t + y;
      forall i | 0 <= i < |rest|
        ensures !HasPrefix((rest + t)[i..], t)
      {
        DropBeyond([x[0]], rest + t, i + 1);
      }
      RedactAround(t, rest, y);
      Assoc([x[0]], rest, MARK);
      Assoc([x[0]], rest + MARK, y);
    }
  }

  /** A stream that shows `t` when the marker overlays it at `d`. */
  function Revealing(t: bytes, d: int): bytes
    requires -|t| < d < |MARK|
  {
    t[..if d < 0 then -d else 0] + t + t[if |MARK| - d < |t| then |MARK| - d else |t|..]
  }

  lemma RevealingShows(t: bytes, d: int)
    requires t != [] && Overlays(MARK, t, d) && (d < 0 ==> NotEarlier(t, -d))
    ensures Occurs(t, Redact([t], Revealing(t, d)))
  {
    hide Redaction.Redact;
    var p := if d < 0 then -d else 0;
    var tail := t[if |MARK| - d < |t| then |MARK| - d else |t|..];
    RedactAround(t, t[..p], tail);
    AroundMark(t, d, p, tail);
  }

  /** Around the marker the overlaid text reads on. */
  lemma AroundMark(t: bytes, d: int, p: nat, tail: bytes)
    requires Overlays(MARK, t, d) && p == if d < 0 then -d else 0
    requires tail == t[if |MARK| - d < |t| then |MARK| - d else |t|..]
    ensures Occurs(t, t[..p] + MARK + tail)
  {
    var shown, at := t[..p] + MARK + tail, d + p;
    assert |shown| >= at + |t|;
    forall k | 0 <= k < |t|
      ensures shown[at + k] == t[k]
    {
      if at + k < p {
      } else if at + k < p + |MARK| {
        assert shown[at + k] == MARK[at + k - p];
      } else {
        assert shown[at + k] == tail[at + k - p - |MARK|];
      }
    }
    assert shown[at..][..|t|] == t;
  }

  /** A lone secret shows after redaction, for some stream, exactly when it is exposable. */
  lemma SurvivesIffExposable(t: bytes)
    requires t != []
    ensures Survives(t) <==> Exposable(t)
  {
    hide Redaction.Redact, Longest;
    if Exposable(t) {
      var d: int :| Overlays(MARK, t, d) && (d < 0 ==> NotEarlier(t, -d));
      RevealingShows(t, d);
    }
    if Survives(t) {
      var s: bytes :| Occurs(t, Redact([t], s));
      var at :| 0 <= at <= |Redact([t], s)| && HasPrefix(Redact([t], s)[at..], t);
      var d, where := ShownSecretMeetsMark([t], s, at, t);
      if d < 0 {
        StaysKept(t, s, -d, where);
      }
    }
  }

  lemma StaysKept(t: bytes, s: bytes, p: int, where: nat)
    requires t != [] && BeginsInKept([t], s, t, p, where)
    ensures NotEarlier(t, p)
  {
    hide Longest;
    LongestOfOne(t, s[where + p..]);
    var x := s[where..];
    DropDrop(s, where, p);
    TakeDrop(x, p);
    assert x[..p + |t|] == t[..p] + t;
    forall i | 0 <= i < p
      ensures !HasPrefix((t[..p] + t)[i..], t)
    {
      LongestOfOne(t, s[where + i..]);
      DropDrop(s, where, i);
      assert (t[..p] + t)[i..][..|t|] == x[i..][..|t|];
    }
  }

  // ---- Decoding.

  lemma {:induction false} RestIsRaw(t: bytes, j: nat, x: bytes)
    requires j <= |t| && Apart(REPLACEMENT, t) && HasPrefix(Reencoded(x), t[j..])
    ensures HasPrefix(x, t[j..])
    decreases |x|
  {
    hide WellFormed, DecodeRune, Overlays;
    if j < |t| {
      assert x != [];
      hide HasPrefix, Reencoded;
      var n, u := DecodeRune(x).size, t[j..];
      ReencodedStep(x);
      if !WellFormed(x) {
        MeetsLater(REPLACEMENT, Reencoded(x[n..]), t, j);
        assert false;
      }
      TakeDrop(x, n);
      PrefixAcross(x[..n], Reencoded(x[n..]), u);
      PrefixAcross(x[..n], x[n..], u);
      if |u| > n {
        DropDrop(t, j, n);
        RestIsRaw(t, j + n, x[n..]);
      }
    }
  }

  /** What shows after decoding was in the bytes, unless U+FFFD can be taken for a part of it. */
  lemma {:induction false} OccursBeforeDecoding(t: bytes, x: bytes, at: nat) returns (where: nat)
    requires t != [] && Apart(REPLACEMENT, t)
    requires at <= |Reencoded(x)| && HasPrefix(Reencoded(x)[at..], t)
    ensures where <= |x| && HasPrefix(x[where..], t)
    decreases |x|
  {
    hide WellFormed, DecodeRune, Overlays;
    assert x != [];
    hide HasPrefix;
    var n := DecodeRune(x).size;
    ReencodedStep(x);
    hide Reencoded;
    var head, rest := if WellFormed(x) then x[..n] else REPLACEMENT, Reencoded(x[n..]);
    if at >= |head| {
      DropBeyond(head, rest, at);
      where := OccursBeforeDecoding(t, x[n..], at - |head|);
      DropDrop(x, n, where);
      return n + where;
    }
    if !WellFormed(x) {
      MeetsFrom(REPLACEMENT, rest, t, at);
      assert false;
    }
    DropPrefix(head, rest, at);
    BeginsInSequence(t, x, at, n);
    return at;
  }

  /** The case of text that begins in a well-formed sequence of `n` bytes. */
  lemma BeginsInSequence(t: bytes, x: bytes, at: nat, n: nat)
    requires Apart(REPLACEMENT, t) && at < n <= |x| && HasPrefix(x[..n][at..] + Reencoded(x[n..]), t)
    ensures HasPrefix(x[at..], t)
  {
    hide HasPrefix, Reencoded, Overlays;
    var kept := x[..n][at..];
    assert x[at..] == kept + x[n..];
    PrefixAcross(kept, Reencoded(x[n..]), t);
    PrefixAcross(kept, x[n..], t);
    if |t| > |kept| {
      RestIsRaw(t, |kept|, x[n..]);
    }
  }

  // ---- Filtering and lines.

  /** Nothing is filtered: no rune is stripped and no `[` follows `##`. */
  predicate Unfiltered(rs: seq<rune>) {
    forall i :: 0 <= i < |rs| ==> !Stripped(rs[i]) && !(rs[i] == BRACKET && HasSuffix(rs[..i], [HASH, HASH]))
  }

  lemma {:induction false} SiftKeepsUnfiltered(f: seq<rune>, rs: seq<rune>)
    requires Unfiltered(f + rs)
    ensures Sift(f, rs) == f + rs
    decreases |rs|
  {
    if rs != [] {
      assert (f + rs)[|f|] == rs[0] && (f + rs)[..|f|] == f;
      assert f + [rs[0]] + rs[1..] == f + rs;
      SiftKeepsUnfiltered(f + [rs[0]], rs[1..]);
    }
  }

  /** A piece of a split text stands in the text; the last piece ends it. */
  lemma {:induction false} PieceStands<T>(s: seq<T>, sep: T, i: nat) returns (a: seq<T>, b: seq<T>)
    requires i < |Split(s, sep)|
    ensures s == a + Split(s, sep)[i] + b && (i == |Split(s, sep)| - 1 ==> b == [])
  {
    if s == [] {
      return [], [];
    }
    InitLast(s);
    SplitSnoc(Init(s), Last(s), sep);
    hide Split;
    var front := Split(Init(s), sep);
    if i == |front| {
      NothingAdded(s);
      return s, [];
    }
    a, b := PieceStands(Init(s), sep, i);
    if i == |front| - 1 && Last(s) != sep {
      NothingAdded(a + front[i]);
      Assoc(a, front[i], [Last(s)]);
      NothingAdded(s);
    } else {
      Assoc(a + front[i], b, [Last(s)]);
      b := b + [Last(s)];
    }
  }

  /** The pieces of a beginning are beginnings of the pieces. */
  lemma {:induction false} PiecesOfPrefix<T>(s: seq<T>, t: seq<T>, sep: T)
    requires s <= t
    ensures |Split(s, sep)| <= |Split(t, sep)|
    ensures forall i :: 0 <= i < |Split(s, sep)| ==> Split(s, sep)[i] <= Split(t, sep)[i]
    decreases |t|
  {
    hide Split;
    if |s| < |t| {
      InitLast(t);
      SplitSnoc(Init(t), Last(t), sep);
      PiecesOfPrefix(s, Init(t), sep);
      PiecesGrow(Split(s, sep), Split(Init(t), sep), Split(t, sep), Last(t));
    } else {
      assert s == t;
    }
  }

  lemma PiecesGrow<T>(pieces: seq<seq<T>>, before: seq<seq<T>>, after: seq<seq<T>>, x: T)
    requires |pieces| <= |before| && forall i :: 0 <= i < |pieces| ==> pieces[i] <= before[i]
    requires before != []
    requires after == before + [[]] || after == Init(before) + [Last(before) + [x]]
    ensures |pieces| <= |after| && forall i :: 0 <= i < |pieces| ==> pieces[i] <= after[i]
  {
  }

  lemma {:induction false} NonEmptyMembers<T>(pieces: seq<seq<T>>)
    ensures forall p :: p in NonEmpty(pieces) <==> p in pieces && p != []
  {
    if pieces != [] {
      InitLast(pieces);
      NonEmptyMembers(Init(pieces));
      NonEmptyInit(pieces);
    }
  }

  lemma {:induction false} EncodeAllAppend(a: seq<rune>, b: seq<rune>)
    ensures EncodeAll(a + b) == EncodeAll(a) + EncodeAll(b)
  {
    if b == [] {
      assert a + b == a;
    } else {
      InitLast(b);
      EncodeAllAppend(a, Init(b));
      EncodeAllSnoc(a + Init(b), Last(b));
      EncodeAllSnoc(Init(b), Last(b));
      Assoc(a, Init(b), [Last(b)]);
    }
  }

  /** A relayed line encodes the beginning of a line of the unfiltered stream. */
  lemma LineBegins(rs: seq<rune>, line: bytes) returns (u: seq<rune>, j: nat)
    requires Unfiltered(rs) && line in LinesOf(CollectAll(EMPTY, rs))
    ensures j < |Split(rs, NL)| && u <= Split(rs, NL)[j] && line == EncodeAll(u)
  {
    hide Split, EncodeAll, CollectAll, GatherAll, NonEmpty, Unfiltered, Sift, Sound, Fits;
    var text, unbounded := CollectAll(EMPTY, rs).text, GatherAll([], rs);
    CollectIsLongestFitting(rs);
    GatheredLines(rs);
    NothingAdded(rs);
    SiftKeepsUnfiltered([], rs);
    EncodedLines(text);
    NonEmptyMembers(Split(EncodeAll(text), 10));
    PiecesOfPrefix(text, unbounded, NL);
    var i :| 0 <= i < |Split(text, NL)| && line == EncodeAll(Split(text, NL)[i]);
    u := Split(text, NL)[i];
    EncodedLast(u);
    SameNonEmpty(Split(unbounded, NL), Split(rs, NL), Split(unbounded, NL)[i]);
    j :| 0 <= j < |Split(rs, NL)| && Split(rs, NL)[j] == Split(unbounded, NL)[i];
  }

  lemma SameNonEmpty<T>(a: seq<seq<T>>, b: seq<seq<T>>, p: seq<T>)
    requires NonEmpty(a) == NonEmpty(b) && p in a && p != []
    ensures p in b
  {
    NonEmptyMembers(a);
    NonEmptyMembers(b);
  }

  /** Every relayed line stands in the encoding of an unfiltered stream. */
  lemma LineStands(rs: seq<rune>, line: bytes) returns (a: bytes, b: bytes)
    requires Unfiltered(rs) && line in LinesOf(CollectAll(EMPTY, rs))
    ensures EncodeAll(rs) == a + line + b
  {
    hide Split, EncodeAll, CollectAll, NonEmpty, Unfiltered;
    var u, j := LineBegins(rs, line);
    var q := Split(rs, NL)[j];
    var before, after := PieceStands(rs, NL, j);
    var rest := q[|u|..] + after;
    assert rs == before + u + rest;
    EncodeAllAppend(before + u, rest);
    EncodeAllAppend(before, u);
    return EncodeAll(before), EncodeAll(rest);
  }

  lemma OccursInside(t: bytes, a: bytes, s: bytes, b: bytes)
    requires Occurs(t, s)
    ensures Occurs(t, a + s + b)
  {
    var at :| 0 <= at <= |s| && HasPrefix(s[at..], t);
    assert (a + s + b)[|a| + at..][..|t|] == s[at..][..|t|];
  }

  /** No relayed line holds a secret, provided neither the marker nor U+FFFD can be taken for a part of it and the
      rewritten stream passes the filter untouched. */
  lemma RelayedLinesHoldNoSecret(secrets: seq<bytes>, input: bytes, t: bytes, line: bytes)
    requires t in secrets && t != [] && Apart(MARK, t) && Apart(REPLACEMENT, t)
    requires Unfiltered(DecodeAll(Redact(secrets, input)))
    requires line in LinesOf(Batch(secrets, input))
    ensures !Occurs(t, line)
  {
    hide Redaction.Redact, DecodeAll, EncodeAll, CollectAll, Split, NonEmpty, Occurs, Apart, Unfiltered;
    var stream := Redact(secrets, input);
    var a, b := LineStands(DecodeAll(stream), line);
    RedactionHidesApart(secrets, input, t);
    if Occurs(t, line) {
      OccursInside(t, a, line, b);
      ShownAfterDecoding(t, stream);
    }
  }

  lemma ShownAfterDecoding(t: bytes, x: bytes)
    requires t != [] && Apart(REPLACEMENT, t) && Occurs(t, Reencoded(x))
    ensures Occurs(t, x)
  {
    hide Reencoded;
    var at :| 0 <= at <= |Reencoded(x)| && HasPrefix(Reencoded(x)[at..], t);
    var where := OccursBeforeDecoding(t, x, at);
  }

  // ---- Each condition is needed.

  /** The secret with a control character after its first byte. */
  function Broken(t: bytes): bytes
    requires t != []
  {
    t[..1] + [1] + t[1..]
  }

  lemma {:induction false} CollectAllAppend(c: Collector, a: seq<rune>, b: seq<rune>)
    ensures CollectAll(c, a + b) == CollectAll(CollectAll(c, a), b)
    decreases |a|
  {
    if a == [] {
      assert a + b == b;
    } else {
      assert (a + b)[0] == a[0] && (a + b)[1..] == a[1..] + b;
      CollectAllAppend(Collect(c, a[0]), a[1..], b);
    }
  }

  lemma BrokenHoldsNoSecret(t: bytes)
    requires Plain(t) && 2 <= |t|
    ensures Redact([t], Broken(t)) == Broken(t)
  {
    hide Redaction.Redact;
    var s := Broken(t);
    forall at | 0 <= at <= |s|
      ensures !HasPrefix(s[at..], t)
    {
      if at <= 1 {
        assert s[at..][1 - at] == s[1] && t[1 - at] != s[1];
        assert |t| <= |s[at..]| && s[at..][..|t|][1 - at] == s[1];
      }
    }
    RedactLeavesOthers([t], s);
  }

  lemma BrokenDecodes(t: bytes)
    requires Plain(t) && t != []
    ensures DecodeAll(Broken(t)) == Runes(t[..1]) + [1] + Runes(t[1..])
  {
    hide EncodeAll, DecodeAll;
    var a, b := t[..1], t[1..];
    PlainRunes(a);
    PlainRunes(b);
    EncodeAllSnoc(Runes(a), 1);
    EncodeAllAppend(Runes(a) + [1], Runes(b));
    assert Encode(1) == [1];
    DecodeEncoded(Runes(a) + [1] + Runes(b));
  }

  /** The filter: it puts together what redaction saw apart. Every plain secret of two bytes or more is relayed as it is
      when a control character stands in it. */
  lemma FilteringReassembles(operation: bytes, t: bytes)
    requires Plain(t) && 2 <= |t| <= MAX_BYTES
    ensures Log(operation, Batch([t], Broken(t))) == [Entry(operation, t)]
  {
    hide Log, Batch, Broken, CollectAll, DecodeAll;
    BrokenCollectsSecret(t);
    PlainLineLog(operation, t);
  }

  lemma BrokenCollectsSecret(t: bytes)
    requires Plain(t) && 2 <= |t| <= MAX_BYTES
    ensures Batch([t], Broken(t)) == CollectAll(EMPTY, DecodeAll(t))
  {
    hide Redaction.Redact, DecodeAll, EncodeAll, CollectAll, Log, Broken;
    BrokenHoldsNoSecret(t);
    BrokenDecodes(t);
    var a, b := Runes(t[..1]), Runes(t[1..]);
    CollectAllAppend(EMPTY, a + [1], b);
    CollectAllAppend(EMPTY, a, [1]);
    CollectAllAppend(EMPTY, a, b);
    ControlIsIgnored(CollectAll(EMPTY, a));
    assert a + b == Runes(t);
    PlainRunes(t);
    DecodeEncoded(Runes(t));
  }

  lemma ControlIsIgnored(c: Collector)
    ensures CollectAll(c, [1]) == c
  {
    assert [1 as rune][1..] == [];
    assert CollectAll(c, [1]) == CollectAll(Collect(c, 1), []);
  }

  /** The smallest instance: the secret `ab` and the bytes 61 01 62. */
  lemma FilteringReassemblesAb(operation: bytes)
    ensures Log(operation, Batch([[0x61, 0x62]], [0x61, 0x01, 0x62])) == [Entry(operation, [0x61, 0x62])]
  {
    hide Log, Entry, Batch;
    var t: bytes := [0x61, 0x62];
    assert Broken(t) == [0x61, 0x01, 0x62];
    FilteringReassembles(operation, t);
  }

  /** The marker: `]y` after a replaced secret reads as the secret `]y`. */
  lemma MarkerCompletesSecret()
    ensures Occurs([93, 121], Redact([[93, 121]], [93, 121, 121]))
  {
    hide Redaction.Redact, Occurs;
    var t: bytes := [93, 121];
    assert MARK[9] == 93 && Overlays(MARK, t, 9);
    assert t[..0] == [] && t[1..] == [121];
    assert Revealing(t, 9) == [93, 121, 121];
    RevealingShows(t, 9);
  }

  lemma CollectOne(r: rune)
    requires !Stripped(r) && r != NL
    ensures CollectAll(EMPTY, [r]).text == [r]
  {
    assert [r][1..] == [];
    assert CollectAll(EMPTY, [r]) == CollectAll(Collect(EMPTY, r), []);
  }

  /** U+FFFD: a byte that is no UTF-8 is relayed as the secret that encodes it. */
  lemma ReplacementReadsAsSecret()
    ensures EncodeAll(Batch([REPLACEMENT], [0xFF]).text) == REPLACEMENT
  {
    hide Redaction.Redact, CollectAll, EncodeAll;
    var s: bytes := [0xFF];
    RedactLeavesOthers([REPLACEMENT], s);
    assert DecodeRune(s) == Decoded(RUNE_ERROR, 1) && s[1..] == [];
    assert DecodeAll(s) == [RUNE_ERROR];
    CollectOne(RUNE_ERROR);
    EncodeAllSnoc([], RUNE_ERROR);
    assert EncodeAll([RUNE_ERROR]) == EncodeAll([]) + Encode(RUNE_ERROR) && EncodeAll([]) == [] by {
      assert [] + [RUNE_ERROR] == [RUNE_ERROR];
      EncodedLast([]);
    }
  }

  // ---- Exactly which plain lone secrets can be relayed.

  /** Some input makes the relay log a line that holds the secret. */
  ghost predicate Relayable(t: bytes) {
    exists input, line :: line in LinesOf(Batch([t], input)) && Occurs(t, line)
  }

  lemma {:induction false} AsciiByteOfEncoding(rs: seq<rune>, b: byte)
    requires b < 0x80 && b in EncodeAll(rs)
    ensures b as rune in rs
  {
    if rs != [] {
      InitLast(rs);
      EncodeAllSnoc(Init(rs), Last(rs));
      if b !in Encode(Last(rs)) {
        AsciiByteOfEncoding(Init(rs), b);
      }
    }
  }

  lemma {:induction false} AsciiRuneOfBytes(x: bytes, b: byte)
    requires b < 0x80 && b as rune in DecodeAll(x)
    ensures b in x
  {
    var d := DecodeRune(x);
    if d.value == b as rune {
      assert x[0] == b;
    } else {
      AsciiRuneOfBytes(x[d.size..], b);
    }
  }

  lemma {:induction false} CollectedRunes(c: Collector, rs: seq<rune>, r: rune)
    requires r in CollectAll(c, rs).text
    ensures r in c.text || r in rs
    decreases |rs|
  {
    if rs != [] {
      CollectedRunes(Collect(c, rs[0]), rs[1..], r);
    }
  }

  lemma {:induction false} RedactedByte(b: byte, s: bytes)
    requires b in Redact([[b]], s)
    ensures b in MARK
    decreases |s|
  {
    hide Longest, Redaction.Redact, Ascii;
    NothingShown([[b]], 0, [b]);
    LongestOfOne([b], s);
    LongestIsLongest([[b]], s);
    var n := Longest([[b]], s);
    ScanStep([[b]], s, n);
    if n > 0 {
      if b !in MARK {
        RedactedByte(b, s[n..]);
      }
    } else {
      assert s[..1] != [b] && s[0] != b;
      RedactedByte(b, s[1..]);
    }
  }

  /** A byte of a relayed line that is ASCII was in the rewritten stream. */
  lemma RelayedByte(secrets: seq<bytes>, input: bytes, line: bytes, b: byte)
    requires b < 0x80 && b in line && line in LinesOf(Batch(secrets, input))
    ensures b in Redact(secrets, input)
  {
    hide Redaction.Redact, CollectAll, DecodeAll, EncodeAll, Split, NonEmpty;
    var stream := DecodeAll(Redact(secrets, input));
    var text := CollectAll(EMPTY, stream).text;
    var payload := EncodeAll(text);
    NonEmptyMembers(Split(payload, 10));
    var i :| 0 <= i < |Split(payload, 10)| && Split(payload, 10)[i] == line;
    var before, after := PieceStands(payload, 10, i);
    assert b in payload;
    AsciiByteOfEncoding(text, b);
    CollectedRunes(EMPTY, stream, b as rune);
    AsciiRuneOfBytes(Redact(secrets, input), b);
  }

  lemma OneByteOccurs(b: byte, s: bytes)
    ensures Occurs([b], s) <==> b in s
  {
    if b in s {
      var at :| 0 <= at < |s| && s[at] == b;
      assert s[at..][..1] == [b];
    }
    if Occurs([b], s) {
      var at :| 0 <= at <= |s| && HasPrefix(s[at..], [b]);
      assert s[at..][..1] == [b] && s[at] == b;
    }
  }

  lemma OccursInItself(t: bytes)
    ensures Occurs(t, t)
  {
    assert t[0..][..|t|] == t;
  }

  /** A plain lone secret can be relayed exactly when it has two bytes or more, which a control character can keep
      apart, or is a byte of the marker. */
  lemma RelayableIff(t: bytes)
    requires Plain(t) && 0 < |t| <= MAX_BYTES
    ensures Relayable(t) <==> |t| >= 2 || Occurs(t, MARK)
  {
    hide Occurs, Batch, LinesOf, Ascii;
    if |t| >= 2 {
      BrokenCollectsSecret(t);
      PlainLineStands(t);
      OccursInItself(t);
      assert t in LinesOf(Batch([t], Broken(t)));
    } else {
      OneByte(t, t[0]);
    }
  }

  lemma OneByte(t: bytes, b: byte)
    requires Plain(t) && t == [b]
    ensures Relayable(t) <==> Occurs(t, MARK)
  {
    hide LinesOf, Ascii, Occurs, CollectAll, DecodeAll, Redaction.Redact;
    if Occurs(t, MARK) {
      LoneSecretIsHidden([t], t);
      MarkIsPlain();
      PlainLineStands(MARK);
      assert MARK in LinesOf(Batch([t], t));
    }
    if Relayable(t) {
      var input, line :| line in LinesOf(Batch([t], input)) && Occurs(t, line);
      OneByteOccurs(b, line);
      assert t[0] == b < 0x80;
      RelayedByte([t], input, line, b);
      RedactedByte(b, input);
      OneByteOccurs(b, MARK);
    }
  }
}
