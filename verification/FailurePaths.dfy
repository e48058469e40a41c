/** The predicate paths and codes an npm failure line may carry into the summary. */
module FailurePaths {
  import opened Text

  const DOT: byte := 46
  const OPEN: byte := 91
  const CLOSE: byte := 93
  const MAX_PATH: nat := 256
  const MAX_CODE: nat := 64
  const MIN_ROOT: nat := 28

  const DEFINITION := Ascii("predicate.buildDefinition")
  const DETAILS := Ascii("predicate.runDetails")
  const ROOTS: seq<bytes> := [
    DEFINITION + Ascii(".buildType"),
    DEFINITION + Ascii(".externalParameters"),
    DEFINITION + Ascii(".resolvedDependencies"),
    DETAILS + Ascii(".builder"),
    DETAILS + Ascii(".metadata")]

  predicate Digit(b: byte) {
    48 <= b <= 57
  }

  predicate FieldStart(b: byte) {
    b == 95 || 65 <= b <= 90 || 97 <= b <= 122
  }

  predicate FieldByte(b: byte) {
    FieldStart(b) || Digit(b)
  }

  // ---- The grammar: a root followed by `.field` and `[index]` segments.

  datatype Segment = Field(name: bytes) | Index(digits: bytes)

  predicate GoodSegment(s: Segment) {
    match s
    case Field(name) => name != [] && FieldStart(name[0]) && forall i :: 0 <= i < |name| ==> FieldByte(name[i])
    case Index(digits) => digits != [] && forall i :: 0 <= i < |digits| ==> Digit(digits[i])
  }

  function Print(s: Segment): bytes {
    match s
    case Field(name) => [DOT] + name
    case Index(digits) => [OPEN] + digits + [CLOSE]
  }

  function PrintAll(segments: seq<Segment>): bytes {
    if segments == [] then [] else Print(segments[0]) + PrintAll(segments[1..])
  }

  ghost predicate GoodSegments(segments: seq<Segment>) {
    forall i :: 0 <= i < |segments| ==> GoodSegment(segments[i])
  }

  ghost predicate Segmented(s: bytes) {
    exists segments :: GoodSegments(segments) && s == PrintAll(segments)
  }

  ghost predicate PathGrammar(path: bytes) {
    |path| <= MAX_PATH && exists root :: root in ROOTS && HasPrefix(path, root) && Segmented(path[|root|..])
  }

  // ---- One segment at a time.

  lemma SegmentedStart(s: bytes)
    requires Segmented(s)
    ensures s == [] || s[0] == DOT || s[0] == OPEN
  {
  }

  lemma NothingIsSegmented()
    ensures Segmented([])
  {
    assert PrintAll([]) == [] && GoodSegments([]);
  }

  /** The longest run of bytes in a class from `from` on. */
  ghost predicate MaximalRun(s: bytes, from: nat, to: nat, inClass: byte -> bool) {
    && from <= to <= |s|
    && (forall i :: from <= i < to ==> inClass(s[i]))
    && (to < |s| ==> !inClass(s[to]))
  }

  /** A field takes exactly the maximal run of field bytes after its dot. */
  lemma FieldTakesMaximalRun(s: bytes, to: nat)
    requires s != [] && s[0] == DOT && MaximalRun(s, 1, to, FieldByte)
    ensures Segmented(s) <==> to > 1 && FieldStart(s[1]) && Segmented(s[to..])
  {
    hide PrintAll;
    if Segmented(s) {
      var segments: seq<Segment> :| GoodSegments(segments) && s == PrintAll(segments);
      var rest := FirstSegment(s, segments);
      SegmentedStart(rest);
      var name := segments[0].name;
      assert forall i :: 0 <= i < |name| ==> s[1 + i] == name[i];
      assert rest != [] ==> s[1 + |name|] == rest[0];
      assert 1 + |name| == to;
    }
    if to > 1 && FieldStart(s[1]) && Segmented(s[to..]) {
      assert forall i :: 0 <= i < to - 1 ==> s[1..to][i] == s[1 + i];
      assert s[1..to] != [] && GoodSegment(Field(s[1..to]));
      assert s == Print(Field(s[1..to])) + s[to..];
      PrependSegment(Field(s[1..to]), s[to..]);
    }
  }

  /** An index takes exactly the maximal run of digits after its bracket, which must be closed. */
  lemma IndexTakesMaximalRun(s: bytes, to: nat)
    requires s != [] && s[0] == OPEN && MaximalRun(s, 1, to, Digit)
    ensures Segmented(s) <==> to > 1 && to < |s| && s[to] == CLOSE && Segmented(s[to + 1..])
  {
    hide PrintAll;
    if Segmented(s) {
      IndexIsMaximalRun(s, to);
    }
    if to > 1 && to < |s| && s[to] == CLOSE && Segmented(s[to + 1..]) {
      assert forall i :: 0 <= i < to - 1 ==> s[1..to][i] == s[1 + i];
      assert s[1..to] != [] && GoodSegment(Index(s[1..to]));
      assert s == Print(Index(s[1..to])) + s[to + 1..];
      PrependSegment(Index(s[1..to]), s[to + 1..]);
    }
  }

  lemma IndexIsMaximalRun(s: bytes, to: nat)
    requires s != [] && s[0] == OPEN && MaximalRun(s, 1, to, Digit) && Segmented(s)
    ensures to > 1 && to < |s| && s[to] == CLOSE && Segmented(s[to + 1..])
  {
    hide PrintAll, Segmented;
    var segments := SomeSegments(s);
    var rest := FirstSegment(s, segments);
    var digits := segments[0].digits;
    assert forall i :: 0 <= i < |digits| ==> s[1 + i] == digits[i];
    assert s[1 + |digits|] == CLOSE;
    assert 1 + |digits| == to;
  }

  lemma SomeSegments(s: bytes) returns (segments: seq<Segment>)
    requires Segmented(s)
    ensures GoodSegments(segments) && s == PrintAll(segments)
  {
    segments :| GoodSegments(segments) && s == PrintAll(segments);
  }

  lemma FirstSegment(s: bytes, segments: seq<Segment>) returns (rest: bytes)
    requires s != [] && GoodSegments(segments) && s == PrintAll(segments)
    ensures segments != [] && GoodSegment(segments[0]) && s == Print(segments[0]) + rest && Segmented(rest)
    ensures s[|Print(segments[0])|..] == rest
  {
    rest := PrintAll(segments[1..]);
  }

  lemma PrependSegment(head: Segment, tail: bytes)
    requires GoodSegment(head) && Segmented(tail)
    ensures Segmented(Print(head) + tail)
  {
    var rest :| GoodSegments(rest) && tail == PrintAll(rest);
    assert ([head] + rest)[1..] == rest;
    assert GoodSegments([head] + rest);
    assert Print(head) + tail == PrintAll([head] + rest);
  }

  // ---- Roots.

  /** No root is a beginning of another. */
  lemma NotBothRoots(path: bytes, i: nat, j: nat)
    requires i < j < |ROOTS|
    ensures !(HasPrefix(path, ROOTS[i]) && HasPrefix(path, ROOTS[j]))
  {
    var at := if j <= 2 then 26 else if i <= 2 then 10 else 21;
    assert |ROOTS[i]| > at && |ROOTS[j]| > at && ROOTS[i][at] != ROOTS[j][at];
  }

  lemma RootIsUnique(path: bytes, i: nat, j: nat)
    requires i < |ROOTS| && j < |ROOTS| && HasPrefix(path, ROOTS[i]) && HasPrefix(path, ROOTS[j])
    ensures i == j
  {
    hide HasPrefix;
    if i < j {
      NotBothRoots(path, i, j);
    } else if j < i {
      NotBothRoots(path, j, i);
    }
  }

  lemma RootLength(i: nat)
    requires i < |ROOTS|
    ensures |ROOTS[i]| >= MIN_ROOT
  {
  }

  /** `validNPMFailurePredicatePath`. */
  method ValidPath(path: bytes) returns (ok: bool)
    ensures ok <==> PathGrammar(path)
  {
    if |path| == 0 || |path| > MAX_PATH {
      forall i | 0 <= i < |ROOTS| {
        RootLength(i);
      }
      return false;
    }
    var r, found := 0, false;
    while r < |ROOTS| && !found
      invariant r <= |ROOTS|
      invariant found ==> r < |ROOTS| && HasPrefix(path, ROOTS[r]) && |path| > |ROOTS[r]|
      invariant forall j :: 0 <= j < r ==> !(HasPrefix(path, ROOTS[j]) && Segmented(path[|ROOTS[j]|..]))
      decreases |ROOTS| - r, !found
    {
      var candidate := ROOTS[r];
      if path == candidate {
        NothingIsSegmented();
        assert path[|candidate|..] == [];
        assert candidate in ROOTS;
        return true;
      }
      if |path| > |candidate| && HasPrefix(path, candidate) && (path[|candidate|] == DOT || path[|candidate|] == OPEN) {
        found := true;
      } else {
        if HasPrefix(path, candidate) && Segmented(path[|candidate|..]) {
          SegmentedStart(path[|candidate|..]);
        }
        r := r + 1;
      }
    }
    if !found {
      return false;
    }
    forall j | 0 <= j < |ROOTS| && HasPrefix(path, ROOTS[j])
      ensures j == r
    {
      RootIsUnique(path, j, r);
    }
    assert PathGrammar(path) <==> Segmented(path[|ROOTS[r]|..]);
    ok := ValidSegments(path, |ROOTS[r]|);
  }

  /** The index loop over the segments after the root. */
  method ValidSegments(path: bytes, from: nat) returns (ok: bool)
    requires from <= |path|
    ensures ok <==> Segmented(path[from..])
  {
    hide Segmented;
    var i := from;
    while i < |path|
      invariant from <= i <= |path|
      invariant Segmented(path[from..]) <==> Segmented(path[i..])
    {
      ghost var s, at := path[i..], i;
      if path[i] == DOT {
        i := i + 1;
        var start := i;
        while i < |path| && FieldByte(path[i])
          invariant start <= i <= |path| && forall k :: start <= k < i ==> FieldByte(path[k])
        {
          i := i + 1;
        }
        assert MaximalRun(s, 1, i - at, FieldByte);
        FieldTakesMaximalRun(s, i - at);
        assert s[i - at..] == path[i..];
        if i == start || !FieldStart(path[start]) {
          return false;
        }
      } else if path[i] == OPEN {
        i := i + 1;
        var start := i;
        while i < |path| && Digit(path[i])
          invariant start <= i <= |path| && forall k :: start <= k < i ==> Digit(path[k])
        {
          i := i + 1;
        }
        assert MaximalRun(s, 1, i - at, Digit);
        IndexTakesMaximalRun(s, i - at);
        if i == start || i == |path| || path[i] != CLOSE {
          return false;
        }
        i := i + 1;
        assert s[i - at..] == path[i..];
      } else {
        if Segmented(s) {
          SegmentedStart(s);
        }
        return false;
      }
    }
    NothingIsSegmented();
    assert path[i..] == [];
    ok := true;
  }

  // ---- What the grammar says about single bytes and lengths.

  predicate PathByte(b: byte) {
    b == DOT || b == OPEN || b == CLOSE || FieldByte(b)
  }

  lemma {:induction false} SegmentBytes(segments: seq<Segment>)
    requires GoodSegments(segments)
    ensures forall i :: 0 <= i < |PrintAll(segments)| ==> PathByte(PrintAll(segments)[i])
  {
    if segments != [] {
      assert GoodSegment(segments[0]);
      SegmentBytes(segments[1..]);
    }
  }

  lemma RootBytes(i: nat)
    requires i < |ROOTS|
    ensures forall at :: 0 <= at < |ROOTS[i]| ==> PathByte(ROOTS[i][at])
  {
    PieceBytes();
  }

  lemma PieceBytes()
    ensures forall at :: 0 <= at < |DEFINITION| ==> PathByte(DEFINITION[at])
    ensures forall at :: 0 <= at < |DETAILS| ==> PathByte(DETAILS[at])
    ensures forall at :: 0 <= at < 10 ==> PathByte(Ascii(".buildType")[at])
    ensures forall at :: 0 <= at < 19 ==> PathByte(Ascii(".externalParameters")[at])
    ensures forall at :: 0 <= at < 21 ==> PathByte(Ascii(".resolvedDependencies")[at])
    ensures forall at :: 0 <= at < 8 ==> PathByte(Ascii(".builder")[at])
    ensures forall at :: 0 <= at < 9 ==> PathByte(Ascii(".metadata")[at])
  {
  }

  /** Paths hold no space and no comma, and are at least as long as the shortest root. */
  lemma PathShape(path: bytes)
    requires PathGrammar(path)
    ensures MIN_ROOT <= |path| <= MAX_PATH
    ensures forall i :: 0 <= i < |path| ==> PathByte(path[i])
  {
    hide Segmented, PathByte;
    var root :| root in ROOTS && HasPrefix(path, root) && Segmented(path[|root|..]);
    RootShape(root);
    SegmentedBytes(path[|root|..]);
    assert path == root + path[|root|..];
  }

  lemma RootShape(root: bytes)
    requires root in ROOTS
    ensures |root| >= MIN_ROOT && forall at :: 0 <= at < |root| ==> PathByte(root[at])
  {
    hide PathByte;
    var r :| 0 <= r < |ROOTS| && ROOTS[r] == root;
    RootLength(r);
    RootBytes(r);
  }

  lemma SegmentedBytes(s: bytes)
    requires Segmented(s)
    ensures forall at :: 0 <= at < |s| ==> PathByte(s[at])
  {
    hide PathByte;
    var segments :| GoodSegments(segments) && s == PrintAll(segments);
    SegmentBytes(segments);
  }

  // ---- Codes.

  ghost predicate GoodCode(code: bytes) {
    && 0 < |code| <= MAX_CODE && 65 <= code[0] <= 90
    && forall i :: 0 <= i < |code| ==> 65 <= code[i] <= 90 || Digit(code[i]) || code[i] == 95
  }

  /** `validNPMFailureCode`. */
  method ValidCode(code: bytes) returns (ok: bool)
    ensures ok <==> GoodCode(code)
  {
    if |code| == 0 || |code| > MAX_CODE || code[0] < 65 || code[0] > 90 {
      return false;
    }
    for i := 1 to |code|
      invariant forall k :: 0 <= k < i ==> 65 <= code[k] <= 90 || Digit(code[k]) || code[k] == 95
    {
      if (code[i] < 65 || code[i] > 90) && (code[i] < 48 || code[i] > 57) && code[i] != 95 {
        return false;
      }
    }
    ok := true;
  }
}
