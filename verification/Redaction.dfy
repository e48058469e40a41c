/** Stage one of the stderr relay: leftmost-longest replacement of secrets in the raw bytes. */
module Redaction {
  import opened Text

  const MARK: bytes := Ascii("[REDACTED]")

  /** Length of the longest secret that `p` starts with; 0 when there is none. */
  function Longest(secrets: seq<bytes>, p: bytes): nat {
    if secrets == [] then 0
    else
      var n, last := Longest(secrets[..|secrets| - 1], p), secrets[|secrets| - 1];
      if HasPrefix(p, last) && n < |last| then |last| else n
  }

  lemma {:induction false} LongestIsLongest(secrets: seq<bytes>, p: bytes)
    ensures Longest(secrets, p) <= |p|
    ensures Longest(secrets, p) > 0 ==> p[..Longest(secrets, p)] in secrets
    ensures forall secret :: secret in secrets && HasPrefix(p, secret) ==> |secret| <= Longest(secrets, p)
  {
    if secrets != [] {
      var front, last := secrets[..|secrets| - 1], secrets[|secrets| - 1];
      LongestIsLongest(front, p);
      assert secrets == front + [last];
    }
  }

  /** Some secret is strictly longer than `p` and starts with it. */
  predicate Partial(secrets: seq<bytes>, p: bytes) {
    exists secret :: secret in secrets && |p| < |secret| && HasPrefix(secret, p)
  }

  /** One step of a left-to-right scan: a byte that starts no secret, or a hidden secret. */
  datatype Segment = Kept(raw: bytes) | Hidden(raw: bytes)

  function Scan(secrets: seq<bytes>, s: bytes): seq<Segment> {
    if s == [] then []
    else
      LongestIsLongest(secrets, s);
      var n := Longest(secrets, s);
      if n > 0 then [Hidden(s[..n])] + Scan(secrets, s[n..])
      else [Kept(s[..1])] + Scan(secrets, s[1..])
  }

  function Shown(segments: seq<Segment>): bytes {
    if segments == [] then []
    else (if segments[0].Hidden? then MARK else segments[0].raw) + Shown(segments[1..])
  }

  function Raw(segments: seq<Segment>): bytes {
    if segments == [] then [] else segments[0].raw + Raw(segments[1..])
  }

  function Redact(secrets: seq<bytes>, s: bytes): bytes {
    Shown(Scan(secrets, s))
  }

  /** The declarative reading of "leftmost, longest first": each hidden piece is the longest secret at its
      place, and a byte is kept only where no secret starts. */
  ghost predicate LeftmostLongest(secrets: seq<bytes>, segments: seq<Segment>, s: bytes) {
    if segments == [] then s == []
    else
      var raw := segments[0].raw;
      && HasPrefix(s, raw)
      && (if segments[0].Hidden? then
            && raw != [] && raw in secrets
            && forall t :: t in secrets && HasPrefix(s, t) ==> |t| <= |raw|
          else
            && |raw| == 1
            && forall t :: t in secrets && HasPrefix(s, t) ==> t == [])
      && LeftmostLongest(secrets, segments[1..], s[|raw|..])
  }

  /** The scan is the only leftmost-longest segmentation of the bytes. */
  lemma {:induction false} ScanIsLeftmostLongest(secrets: seq<bytes>, segments: seq<Segment>, s: bytes)
    ensures LeftmostLongest(secrets, segments, s) <==> segments == Scan(secrets, s)
    decreases |segments| + |s|
  {
    LongestIsLongest(secrets, s);
    if s != [] && segments != [] {
      var n := Longest(secrets, s);
      var k := if n > 0 then n else 1;
      var head := if n > 0 then Hidden(s[..n]) else Kept(s[..1]);
      assert HasPrefix(s, s[..n]);
      assert Scan(secrets, s) == [head] + Scan(secrets, s[k..]);
      ScanIsLeftmostLongest(secrets, segments[1..], s[k..]);
      assert segments == [segments[0]] + segments[1..];
      assert LeftmostLongest(secrets, segments, s) ==> segments[0] == head;
    }
  }

  lemma {:induction false} ScanKeepsRaw(secrets: seq<bytes>, s: bytes)
    ensures Raw(Scan(secrets, s)) == s
    decreases |s|
  {
    if s != [] {
      hide Longest, Raw;
      LongestIsLongest(secrets, s);
      var n := Longest(secrets, s);
      var k := if n > 0 then n else 1;
      ScanKeepsRaw(secrets, s[k..]);
      RawCons(if n > 0 then Hidden(s[..n]) else Kept(s[..1]), Scan(secrets, s[k..]));
      TakeDrop(s, k);
    }
  }

  lemma RawCons(head: Segment, rest: seq<Segment>)
    ensures Raw([head] + rest) == head.raw + Raw(rest)
  {
    assert ([head] + rest)[1..] == rest;
  }

  /** Position `at` of the raw bytes lies inside a hidden segment. */
  ghost predicate Covered(segments: seq<Segment>, at: nat) {
    segments != [] &&
    if at < |segments[0].raw| then segments[0].Hidden?
    else Covered(segments[1..], at - |segments[0].raw|)
  }

  /** Wherever a secret occurs, its first byte is hidden. */
  lemma {:induction false} SecretStartIsHidden(secrets: seq<bytes>, s: bytes, at: nat, secret: bytes)
    requires secret in secrets && secret != []
    requires at <= |s| && HasPrefix(s[at..], secret)
    ensures Covered(Scan(secrets, s), at)
    decreases |s|
  {
    LongestIsLongest(secrets, s);
    var n := Longest(secrets, s);
    if at == 0 {
      assert s[at..] == s;
      assert n > 0;
    } else if at >= n {
      var k := if n > 0 then n else 1;
      assert s[k..][at - k..] == s[at..];
      SecretStartIsHidden(secrets, s[k..], at - k, secret);
    }
  }

  /** Nothing is rewritten in bytes that hold no secret. */
  lemma {:induction false} RedactLeavesOthers(secrets: seq<bytes>, s: bytes)
    requires forall at, secret :: 0 <= at <= |s| && secret in secrets && secret != [] ==> !HasPrefix(s[at..], secret)
    ensures Redact(secrets, s) == s
    decreases |s|
  {
    if s != [] {
      LongestIsLongest(secrets, s);
      assert s[0..] == s;
      assert Longest(secrets, s) == 0 by {
        if Longest(secrets, s) > 0 {
          var secret := s[..Longest(secrets, s)];
          assert secret in secrets && HasPrefix(s[0..], secret);
        }
      }
      forall at, secret | 0 <= at <= |s[1..]| && secret in secrets && secret != []
        ensures !HasPrefix(s[1..][at..], secret)
      {
        assert s[1..][at..] == s[at + 1..];
      }
      RedactLeavesOthers(secrets, s[1..]);
    }
  }

  /** A whole secret on its own becomes exactly the marker. */
  lemma LoneSecretIsHidden(secrets: seq<bytes>, secret: bytes)
    requires secret in secrets && secret != []
    ensures Redact(secrets, secret) == MARK
  {
    LongestIsLongest(secrets, secret);
    assert HasPrefix(secret, secret);
    assert secret[|secret|..] == [] && secret[..|secret|] == secret;
    assert Longest(secrets, secret) == |secret|;
    ScanStep(secrets, secret, |secret|);
    assert MARK + [] == MARK;
  }

  /** Once no secret can still grow out of `p`, later bytes do not change the match at its start. */
  lemma {:induction false} LongestIsStable(secrets: seq<bytes>, p: bytes, more: bytes)
    requires !Partial(secrets, p) || more == []
    ensures Longest(secrets, p + more) == Longest(secrets, p)
  {
    if more == [] {
      assert p + more == p;
    } else if secrets != [] {
      var front, last := secrets[..|secrets| - 1], secrets[|secrets| - 1];
      assert last in secrets && forall t :: t in front ==> t in secrets;
      LongestIsStable(front, p, more);
      if |last| <= |p| {
        assert (p + more)[..|last|] == p[..|last|];
      } else if |last| <= |p + more| {
        assert (p + more)[..|last|][..|p|] == p;
      }
    }
  }

  /** One committed step of the streaming matcher agrees with the scan of the whole stream. */
  lemma RedactStep(secrets: seq<bytes>, p: bytes, more: bytes)
    requires p != []
    requires !Partial(secrets, p) || more == []
    ensures Longest(secrets, p) <= |p|
    ensures var n := Longest(secrets, p);
            Redact(secrets, p + more) ==
            if n > 0 then MARK + Redact(secrets, p[n..] + more) else [p[0]] + Redact(secrets, p[1..] + more)
  {
    LongestIsLongest(secrets, p);
    LongestIsStable(secrets, p, more);
    var n := Longest(secrets, p);
    ScanStep(secrets, p + more, n);
    DropPrefix(p, more, if n > 0 then n else 1);
  }

  lemma ScanStep(secrets: seq<bytes>, s: bytes, n: nat)
    requires s != [] && n == Longest(secrets, s) <= |s|
    ensures Redact(secrets, s) ==
            if n > 0 then MARK + Redact(secrets, s[n..]) else [s[0]] + Redact(secrets, s[1..])
  {
    if n > 0 {
      ShownCons(Hidden(s[..n]), Scan(secrets, s[n..]));
    } else {
      ShownCons(Kept(s[..1]), Scan(secrets, s[1..]));
    }
  }

  lemma ShownCons(head: Segment, rest: seq<Segment>)
    ensures Shown([head] + rest) == (if head.Hidden? then MARK else head.raw) + Shown(rest)
  {
    assert ([head] + rest)[1..] == rest;
  }
}
