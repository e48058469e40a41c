/** The bounded recogniser of npm failure output. */
module Recognizer {
  import opened Text
  import opened FailurePaths
  import opened FailureFamily

  const MAX_LINE: nat := 2048
  const MAX_PATHS_STATE: nat := 3758
  const MAX_STATUS: nat := 3
  const MAX_STATE: nat := MAX_LINE + MAX_PATHS_STATE + MAX_CODE + MAX_STATUS
  const MAX_SUMMARY: nat := 8192
  const NEWLINE: byte := 10

  const ERROR_LINE := Ascii("npm error ")
  const ERR_LINE := Ascii("npm err! ")
  const CODE_FIELD := Ascii("code ")
  const RETURN: bytes := [13]

  /** Everything the recogniser remembers of the lines it has seen. */
  datatype Seen = Seen(code: bytes, status: bytes, paths: seq<bytes>, progress: Progress)

  const NOTHING := Seen([], [], [], Progress(NoFamily, NoStage))

  predicate Digits(s: bytes) {
    forall i :: 0 <= i < |s| ==> Digit(s[i])
  }

  /** Three digits between 400 and 599; on three digits this is the source's string comparison. */
  predicate FailureStatus(s: bytes)
    requires |s| == 3
  {
    Digits(s) && 52 <= s[0] <= 53
  }

  predicate Delimiter(b: byte) {
    b == 32 || b == 9 || b == 61
  }

  function FieldEnd(field: bytes): (end: nat)
    ensures end <= |field| && (end < |field| ==> Delimiter(field[end]))
    ensures forall i :: 0 <= i < end ==> !Delimiter(field[i])
  {
    if field == [] || Delimiter(field[0]) then 0 else 1 + FieldEnd(field[1..])
  }

  function SumLength(paths: seq<bytes>): nat {
    if paths == [] then 0 else SumLength(Init(paths)) + |Last(paths)|
  }

  ghost function AddPath(s: Seen, path: bytes): Seen {
    if !PathGrammar(path) || path in s.paths || SumLength(s.paths) + |path| > MAX_PATHS_STATE then s
    else s.(paths := s.paths + [path])
  }

  function NpmMessage(line: bytes): Option<bytes> {
    if HasPrefix(line, ERROR_LINE) then Some(line[|ERROR_LINE|..]) else CutPrefix(line, ERR_LINE)
  }

  /** What the text after `npm error ` adds, besides the family. */
  ghost function ObserveFields(s: Seen, rest: bytes, complete: bool): Seen {
    if HasPrefix(rest, CODE_FIELD) then
      if complete && s.code == [] && GoodCode(rest[|CODE_FIELD|..]) then s.(code := rest[|CODE_FIELD|..]) else s
    else if |rest| < 3 || !FailureStatus(rest[..3]) || (|rest| > 3 && rest[3] != 32) then s
    else
      var withStatus := if s.status == [] then s.(status := rest[..3]) else s;
      if |rest| == 3 then withStatus
      else
        var field := rest[4..];
        if FieldEnd(field) < |field| || complete then AddPath(withStatus, field[..FieldEnd(field)]) else withStatus
  }

  ghost function Observe(s: Seen, line: bytes, complete: bool): Seen {
    var message := NpmMessage(if complete then TrimSuffix(line, RETURN) else line);
    if message.None? then s.(progress := s.progress.(stage := NoStage))
    else ObserveFields(s.(progress := FamilyStep(s.progress, message.value, complete)), message.value, complete)
  }

  // ---- The reference: fold over the stream's lines, each cut to the line budget.

  function CutLine(line: bytes): bytes {
    if |line| <= MAX_LINE then line else line[..MAX_LINE]
  }

  ghost function ObserveCut(s: Seen, line: bytes): Seen {
    Observe(s, CutLine(line), |line| <= MAX_LINE)
  }

  ghost function ObserveAll(lines: seq<bytes>): Seen {
    if lines == [] then NOTHING else ObserveCut(ObserveAll(Init(lines)), Last(lines))
  }

  /** All terminated lines, and then the unterminated one. */
  ghost function Finished(stream: bytes): Seen {
    ObserveAll(Init(Split(stream, NEWLINE)))
  }

  ghost function Summarised(stream: bytes): Seen {
    ObserveAll(Split(stream, NEWLINE))
  }

  // ---- Invariants of what is remembered.

  ghost predicate Sound(s: Seen) {
    && (s.code == [] || GoodCode(s.code))
    && (s.status == [] || (|s.status| == 3 && FailureStatus(s.status)))
    && (forall i :: 0 <= i < |s.paths| ==> PathGrammar(s.paths[i]))
    && (forall i, j :: 0 <= i < j < |s.paths| ==> s.paths[i] != s.paths[j])
    && SumLength(s.paths) <= MAX_PATHS_STATE
  }

  /** Facts are only ever added: code, status and family stay as first set, and paths are appended. */
  ghost predicate Extends(later: Seen, earlier: Seen) {
    && (earlier.code != [] ==> later.code == earlier.code)
    && (earlier.status != [] ==> later.status == earlier.status)
    && (earlier.progress.family != NoFamily ==> later.progress.family == earlier.progress.family)
    && earlier.paths <= later.paths
  }

  lemma AddPathKeepsSound(s: Seen, path: bytes)
    requires Sound(s)
    ensures Sound(AddPath(s, path)) && Extends(AddPath(s, path), s) && AddPath(s, path).progress == s.progress
  {
    hide PathGrammar, GoodCode;
    assert Init(s.paths + [path]) == s.paths;
  }

  lemma ObserveKeepsSound(s: Seen, line: bytes, complete: bool)
    requires Sound(s)
    ensures Sound(Observe(s, line, complete)) && Extends(Observe(s, line, complete), s)
  {
    hide PathGrammar, GoodCode, ObserveFields, FamilyStep, NpmMessage, TrimSuffix;
    var message := NpmMessage(if complete then TrimSuffix(line, RETURN) else line);
    if message.Some? {
      var rest := message.value;
      FamilyIsStable(s.progress, rest, complete);
      FieldsKeepSound(s.(progress := FamilyStep(s.progress, rest, complete)), rest, complete);
    }
  }

  lemma FieldsKeepSound(s: Seen, rest: bytes, complete: bool)
    requires Sound(s)
    ensures Sound(ObserveFields(s, rest, complete)) && Extends(ObserveFields(s, rest, complete), s)
    ensures ObserveFields(s, rest, complete).progress == s.progress
  {
    hide Ascii, PathGrammar, GoodCode, AddPath, HasPrefix;
    if |rest| > 3 && FailureStatus(rest[..3]) {
      var withStatus := if s.status == [] then s.(status := rest[..3]) else s;
      AddPathKeepsSound(withStatus, rest[4..][..FieldEnd(rest[4..])]);
    }
  }

  lemma {:induction false} ObserveAllIsSound(lines: seq<bytes>)
    ensures Sound(ObserveAll(lines))
  {
    if lines != [] {
      ObserveAllIsSound(Init(lines));
      ObserveKeepsSound(ObserveAll(Init(lines)), CutLine(Last(lines)), |Last(lines)| <= MAX_LINE);
    }
  }

  lemma ExtendsIsTransitive(a: Seen, b: Seen, c: Seen)
    requires Extends(b, a) && Extends(c, b)
    ensures Extends(c, a)
  {
    assert forall i :: 0 <= i < |a.paths| ==> c.paths[i] == b.paths[i] == a.paths[i];
  }

  /** Along every stream what is remembered only grows. */
  lemma {:induction false} RememberedOnlyGrows(lines: seq<bytes>, more: seq<bytes>)
    ensures Extends(ObserveAll(lines + more), ObserveAll(lines))
  {
    if more == [] {
      NothingAdded(lines);
    } else {
      hide Extends, Sound, Observe;
      RememberedOnlyGrows(lines, Init(more));
      InitLast(more);
      Assoc(lines, Init(more), [Last(more)]);
      var before := ObserveAll(lines + Init(more));
      assert Init(lines + more) == lines + Init(more) && Last(lines + more) == Last(more);
      ObserveAllIsSound(lines + Init(more));
      ObserveKeepsSound(before, CutLine(Last(more)), |Last(more)| <= MAX_LINE);
      ExtendsIsTransitive(ObserveAll(lines), before, ObserveAll(lines + more));
    }
  }

  lemma CutLineSnoc(line: bytes, b: byte)
    ensures CutLine([]) == []
    ensures |CutLine(line)| <= MAX_LINE && (|line| <= MAX_LINE ==> CutLine(line) == line)
    ensures |line| < MAX_LINE ==> CutLine(line + [b]) == CutLine(line) + [b] && |CutLine(line)| < MAX_LINE
    ensures |line| >= MAX_LINE ==> CutLine(line + [b]) == CutLine(line) && |CutLine(line)| == MAX_LINE
  {
  }

  class FailureRecognizer {
    var pending: bytes
    var predicatePaths: seq<bytes>
    var code: bytes
    var httpStatus: bytes
    var predicatePathsSize: nat
    var discarding: bool
    var family: Family
    var familyStage: Stage
    /** Every byte offered to `Write`. */
    ghost var stream: bytes

    ghost function State(): Seen
      reads this
    {
      Seen(code, httpStatus, predicatePaths, Progress(family, familyStage))
    }

    ghost predicate Counted()
      reads this
    {
      Sound(State()) && predicatePathsSize == SumLength(predicatePaths)
    }

    ghost predicate Valid()
      reads this
    {
      && Counted()
      && State() == Finished(stream)
      && pending == CutLine(Last(Split(stream, NEWLINE)))
      && (discarding <==> |Last(Split(stream, NEWLINE))| > MAX_LINE)
    }

    constructor ()
      ensures Valid() && stream == []
    {
      pending, predicatePaths, code, httpStatus := [], [], [], [];
      predicatePathsSize, discarding := 0, false;
      family, familyStage := NoFamily, NoStage;
      stream := [];
    }

    /** Chunking does not matter: the state depends only on all the bytes written. */
    method Write(p: bytes)
      requires Valid()
      modifies this
      ensures Valid() && stream == old(stream) + p
    {
      hide Sound, Split, ObserveAll, Observe, CutLine, SumLength, Ascii;
      NothingAdded(stream);
      for i := 0 to |p|
        invariant Valid() && stream == old(stream) + p[..i]
      {
        var b := p[i];
        ghost var lines := Split(stream, NEWLINE);
        SplitSnoc(stream, b, NEWLINE);
        CutLineSnoc(Last(lines), b);
        TakeNext(p, i);
        Assoc(old(stream), p[..i], [b]);
        if b == NEWLINE {
          ObserveAllStep(lines);
          ObserveLine(pending, !discarding);
          pending := [];
          discarding := false;
        } else if discarding {
        } else if |pending| == MAX_LINE {
          discarding := true;
        } else {
          pending := pending + [b];
        }
        stream := stream + [b];
      }
      assert p[..|p|] == p;
    }

    /** Also observes the unterminated last line, without changing the recogniser. */
    method Summary() returns (text: bytes)
      requires Valid()
      ensures text == SummaryText(Summarised(stream))
      ensures |text| <= 4065 <= MAX_SUMMARY && ReadSummary(text) == FactsOf(Summarised(stream))
    {
      hide Sound, Observe, SummaryText, ReadSummary;
      SummaryOfStream(stream);
      var snapshot := new FailureRecognizer();
      snapshot.predicatePaths := predicatePaths;
      snapshot.code := code;
      snapshot.httpStatus := httpStatus;
      snapshot.predicatePathsSize := predicatePathsSize;
      snapshot.family := family;
      snapshot.familyStage := familyStage;
      ObserveAllStep(Split(stream, NEWLINE));
      assert snapshot.State() == State();
      snapshot.ObserveLine(pending, !discarding);
      text := snapshot.Describe();
    }

    function StateSize(): nat
      reads this
    {
      |pending| + |code| + |httpStatus| + predicatePathsSize
    }

    lemma StateIsBounded()
      requires Valid()
      ensures StateSize() <= MAX_STATE
      ensures predicatePathsSize == SumLength(predicatePaths)
      ensures forall i :: 0 <= i < |predicatePaths| ==> PathGrammar(predicatePaths[i])
      ensures forall i, j :: 0 <= i < j < |predicatePaths| ==> predicatePaths[i] != predicatePaths[j]
    {
    }

    method ObserveLine(rawLine: bytes, complete: bool)
      requires Counted()
      modifies this`predicatePaths, this`code, this`httpStatus, this`predicatePathsSize, this`family, this`familyStage
      ensures Counted() && State() == Observe(old(State()), rawLine, complete)
    {
      hide Sound, FamilyStep, ObserveFields, SumLength;
      ObserveKeepsSound(State(), rawLine, complete);
      var line := rawLine;
      if complete {
        line := TrimSuffix(line, RETURN);
      }
      var rest;
      if HasPrefix(line, ERROR_LINE) {
        rest := line[|ERROR_LINE|..];
      } else if HasPrefix(line, ERR_LINE) {
        rest := line[|ERR_LINE|..];
      } else {
        familyStage := NoStage;
        return;
      }
      ObserveFamily(rest, complete);
      ObserveRest(rest, complete);
    }

    /** The part of `observeLine` after the family. */
    method ObserveRest(rest: bytes, complete: bool)
      requires predicatePathsSize == SumLength(predicatePaths)
      modifies this`predicatePaths, this`code, this`httpStatus, this`predicatePathsSize
      ensures predicatePathsSize == SumLength(predicatePaths) && State() == ObserveFields(old(State()), rest, complete)
    {
      hide AddPath, PathGrammar, GoodCode, SumLength;
      if HasPrefix(rest, CODE_FIELD) {
        var found := rest[|CODE_FIELD|..];
        var good := ValidCode(found);
        if complete && code == [] && good {
          code := found;
        }
        return;
      }
      if |rest| < MAX_STATUS || !Digits(rest[..MAX_STATUS]) {
        return;
      }
      var status := rest[..MAX_STATUS];
      if !FailureStatus(status) {
        return;
      }
      if |rest| > MAX_STATUS && rest[MAX_STATUS] != 32 {
        return;
      }
      if httpStatus == [] {
        httpStatus := status;
      }
      if |rest| == MAX_STATUS {
        return;
      }
      var field := rest[MAX_STATUS + 1..];
      var end, delimited := |field|, false;
      var i := 0;
      while i < |field| && !delimited
        invariant 0 <= i <= |field|
        invariant FieldEnd(field) == if delimited then end else i + FieldEnd(field[i..])
        invariant if delimited then end < |field| else end == |field|
        decreases |field| - i, !delimited
      {
        if field[i] == 32 || field[i] == 9 || field[i] == 61 {
          end, delimited := i, true;
        } else {
          i := i + 1;
        }
      }
      if delimited || complete {
        assert field[..FieldEnd(field)] == field[..end];
        AddPredicatePath(field[..end]);
      }
    }

    method ObserveFamily(rest: bytes, complete: bool)
      modifies this`family, this`familyStage
      ensures Progress(family, familyStage) == FamilyStep(old(Progress(family, familyStage)), rest, complete)
    {
      hide CompletePredicateMismatch, CompleteRepositoryMismatch, Ascii, HasSuffix, SplitOn, AllDetails;
      if family != NoFamily {
        return;
      }
      var previousStage := familyStage;
      familyStage := NoStage;
      if !complete {
        return;
      }
      var message := Message(rest);
      if previousStage == RunnerConclusion && message == RUNNER_CONCLUSION {
        family := UnsupportedRunner;
        return;
      }
      if previousStage == Predicate {
        var settled := ObservePredicateDetails(message);
        if settled {
          return;
        }
      }
      if message == WRAPPER {
        familyStage := Body;
        return;
      }
      var body;
      if HasPrefix(message, WRAPPER + SPACE) {
        body := message[|WRAPPER + SPACE|..];
      } else {
        if previousStage != Body {
          return;
        }
        body := message;
      }
      if body == HEADER {
        familyStage := Predicate;
      } else if HasPrefix(body, HEADER + SPACE) {
        var settled := ObservePredicateDetails(TrimPrefix(body, HEADER + SPACE));
      } else if CompleteRepositoryMismatch(body) {
        family := RepositoryMismatch;
      } else if body == PRIVATE_SOURCE {
        family := PrivateSource;
      } else if body == RUNNER_INTRO {
        familyStage := RunnerConclusion;
      } else if body == RUNNER_INTRO + SPACE + RUNNER_CONCLUSION {
        family := UnsupportedRunner;
      } else if body == MISSING_CLAIM {
        family := MissingClaim;
      }
    }

    method ObservePredicateDetails(details: bytes) returns (settled: bool)
      requires family == NoFamily && familyStage == NoStage
      modifies this`family, this`familyStage
      ensures settled <==> ObserveDetails(details).Some?
      ensures Progress(family, familyStage) ==
              if settled then ObserveDetails(details).value else Progress(NoFamily, NoStage)
    {
      hide CompletePredicateMismatch, SplitOn;
      var text := TrimSuffix(details, COMMA);
      var pieces := SplitOn(text, SEPARATOR);
      for i := 0 to |pieces|
        invariant forall detail :: detail in pieces[..i] ==> CompletePredicateMismatch(detail, BINDINGS)
        invariant family == NoFamily && familyStage == NoStage
      {
        TakeNext(pieces, i);
        if !CompletePredicateMismatch(pieces[i], BINDINGS) {
          assert pieces[i] in pieces;
          return false;
        }
      }
      assert pieces[..|pieces|] == pieces;
      if HasSuffix(details, COMMA) {
        familyStage := Predicate;
      } else {
        family := PredicateMismatch;
      }
      settled := true;
    }

    method AddPredicatePath(path: bytes)
      requires predicatePathsSize == SumLength(predicatePaths)
      modifies this`predicatePaths, this`predicatePathsSize
      ensures State() == AddPath(old(State()), path) && predicatePathsSize == SumLength(predicatePaths)
    {
      hide PathGrammar;
      var valid := ValidPath(path);
      if !valid {
        return;
      }
      for i := 0 to |predicatePaths|
        invariant path !in predicatePaths[..i]
      {
        if predicatePaths[i] == path {
          return;
        }
      }
      if predicatePathsSize + |path| > MAX_PATHS_STATE {
        return;
      }
      assert Init(predicatePaths + [path]) == predicatePaths;
      predicatePaths := predicatePaths + [path];
      predicatePathsSize := predicatePathsSize + |path|;
    }

    method Describe() returns (text: bytes)
      ensures text == SummaryText(State())
    {
      hide Ascii, Label, Join;
      text := [];
      if family == NoFamily && code == [] && httpStatus == [] && predicatePaths == [] {
        return;
      }
      text := SUMMARY_PREFIX;
      if family != NoFamily {
        text := text + (SPACE + (FAMILY_KEY + Label(family)));
      }
      if code != [] {
        text := text + (SPACE + (CODE_KEY + code));
      }
      if httpStatus != [] {
        text := text + (SPACE + (STATUS_KEY + httpStatus));
      }
      if |predicatePaths| > 0 {
        text := text + (SPACE + (PATHS_KEY + Join(predicatePaths, 44)));
      }
    }
  }

  lemma ObserveAllStep(lines: seq<bytes>)
    requires lines != []
    ensures ObserveAll(lines) == ObserveCut(ObserveAll(Init(lines)), Last(lines))
  {
  }

  // ---- The summary.

  const PREFIX_WORDS := [Ascii("windlass"), Ascii("operational:"), Ascii("npm_failure")]
  const SUMMARY_PREFIX := PREFIX_WORDS[0] + SPACE + PREFIX_WORDS[1] + SPACE + PREFIX_WORDS[2]
  const FAMILY_KEY := Ascii("family=")
  const CODE_KEY := Ascii("code=")
  const STATUS_KEY := Ascii("http_status=")
  const PATHS_KEY := Ascii("predicate_paths=")

  predicate Silent(s: Seen) {
    s.progress.family == NoFamily && s.code == [] && s.status == [] && s.paths == []
  }

  function With(text: bytes, present: bool, word: bytes): bytes {
    if present then text + (SPACE + word) else text
  }

  function SummaryText(s: Seen): bytes {
    if Silent(s) then []
    else
      var family := With(SUMMARY_PREFIX, s.progress.family != NoFamily, FAMILY_KEY + Label(s.progress.family));
      var code := With(family, s.code != [], CODE_KEY + s.code);
      var status := With(code, s.status != [], STATUS_KEY + s.status);
      With(status, s.paths != [], PATHS_KEY + Join(s.paths, 44))
  }

  lemma {:induction false} JoinLength(paths: seq<bytes>)
    ensures |Join(paths, 44)| == SumLength(paths) + if |paths| > 1 then |paths| - 1 else 0
  {
    if |paths| > 1 {
      JoinLength(Init(paths));
    } else if |paths| == 1 {
      assert Init(paths) == [] && SumLength([]) == 0;
    }
  }

  /** Every path is at least as long as the shortest root, which bounds how many there can be. */
  lemma {:induction false} PathCount(paths: seq<bytes>)
    requires forall i :: 0 <= i < |paths| ==> PathGrammar(paths[i])
    ensures MIN_ROOT * |paths| <= SumLength(paths)
  {
    if paths != [] {
      hide PathGrammar;
      PathShape(Last(paths));
      PathCount(Init(paths));
    }
  }

  lemma LabelLength(family: Family)
    ensures |Label(family)| <= 30
  {
  }

  /** The summary of anything the recogniser can remember: at most 4065 bytes, well inside its declared limit. */
  lemma SummaryIsBounded(s: Seen)
    requires Sound(s)
    ensures |SummaryText(s)| <= 4065 <= MAX_SUMMARY
  {
    hide Ascii, Label, Join, SumLength, PathGrammar;
    LabelLength(s.progress.family);
    JoinLength(s.paths);
    PathCount(s.paths);
    assert |SUMMARY_PREFIX| == 33 && |FAMILY_KEY| == 7 && |CODE_KEY| == 5 && |STATUS_KEY| == 12 && |PATHS_KEY| == 16;
  }

  /** Ending the last line adds nothing to the summary. */
  lemma NewlineKeepsSummary(stream: bytes)
    ensures SummaryText(Summarised(stream + [NEWLINE])) == SummaryText(Summarised(stream))
  {
    hide Split, Ascii, Label, Join, FamilyStep;
    SplitSnoc(stream, NEWLINE, NEWLINE);
    var lines := Split(stream, NEWLINE);
    assert Split(stream + [NEWLINE], NEWLINE) == lines + [[]];
    assert Init(lines + [[]]) == lines;
    EmptyLine(ObserveAll(lines));
  }

  lemma EmptyLine(s: Seen)
    ensures Observe(s, [], true) == s.(progress := s.progress.(stage := NoStage))
  {
    assert |ERROR_LINE| == 10 && |ERR_LINE| == 9;
  }

  // ---- A reader of the summary.

  /** The value of the last field with the given key. */
  function Lookup(fields: seq<bytes>, key: bytes): bytes {
    if fields == [] then []
    else if HasPrefix(Last(fields), key) then Last(fields)[|key|..]
    else Lookup(Init(fields), key)
  }

  datatype Facts = Facts(family: bytes, code: bytes, status: bytes, paths: seq<bytes>)

  /** What was recognised, by name. */
  function FactsOf(s: Seen): Facts {
    Facts(Label(s.progress.family), s.code, s.status, s.paths)
  }

  function ReadSummary(text: bytes): Facts {
    var fields := Split(text, 32);
    var paths := Lookup(fields, PATHS_KEY);
    Facts(Lookup(fields, FAMILY_KEY), Lookup(fields, CODE_KEY), Lookup(fields, STATUS_KEY),
          if paths == [] then [] else Split(paths, 44))
  }

  function AddWord(words: seq<bytes>, present: bool, word: bytes): seq<bytes> {
    if present then words + [word] else words
  }

  function Words(s: Seen): seq<bytes> {
    var family := AddWord(PREFIX_WORDS, s.progress.family != NoFamily, FAMILY_KEY + Label(s.progress.family));
    var code := AddWord(family, s.code != [], CODE_KEY + s.code);
    var status := AddWord(code, s.status != [], STATUS_KEY + s.status);
    AddWord(status, s.paths != [], PATHS_KEY + Join(s.paths, 44))
  }

  /** `text` is the words with single spaces between them, and no word holds a space. */
  ghost predicate Spaced(text: bytes, words: seq<bytes>) {
    words != [] && text == Join(words, 32) && forall k :: 0 <= k < |words| ==> 32 !in words[k]
  }

  lemma SpacedAdd(text: bytes, words: seq<bytes>, present: bool, word: bytes)
    requires Spaced(text, words) && (present ==> 32 !in word)
    ensures Spaced(With(text, present, word), AddWord(words, present, word))
  {
    JoinSnoc(words, word, 32);
    Assoc(text, SPACE, word);
  }

  lemma SpacedPrefix()
    ensures Spaced(SUMMARY_PREFIX, PREFIX_WORDS)
  {
    var w := PREFIX_WORDS;
    assert w == [w[0]] + [w[1]] + [w[2]];
    JoinSnoc([w[0]], w[1], 32);
    JoinSnoc([w[0]] + [w[1]], w[2], 32);
    assert Join([w[0]], 32) == w[0];
    assert 32 !in w[0] && 32 !in w[1] && 32 !in w[2];
  }

  lemma KeysHoldNoSpace()
    ensures 32 !in FAMILY_KEY && 32 !in CODE_KEY && 32 !in STATUS_KEY && 32 !in PATHS_KEY
  {
  }

  lemma LabelsHoldNoSpace(family: Family)
    ensures 32 !in Label(family) && (Label(family) == [] <==> family == NoFamily)
  {
    hide Ascii;
    match family
    case NoFamily =>
    case PredicateMismatch => PredicateMismatchLabel();
    case RepositoryMismatch => RepositoryMismatchLabel();
    case PrivateSource => PrivateSourceLabel();
    case UnsupportedRunner => UnsupportedRunnerLabel();
    case MissingClaim => MissingClaimLabel();
  }

  lemma PredicateMismatchLabel()
    ensures 32 !in Ascii("predicate-field-mismatch")
  {
  }

  lemma RepositoryMismatchLabel()
    ensures 32 !in Ascii("repository-metadata-mismatch")
  {
  }

  lemma PrivateSourceLabel()
    ensures 32 !in Ascii("private-source-repository")
  {
  }

  lemma UnsupportedRunnerLabel()
    ensures 32 !in Ascii("unsupported-runner-environment")
  {
  }

  lemma MissingClaimLabel()
    ensures 32 !in Ascii("missing-certificate-claim")
  {
  }

  lemma {:induction false} JoinedHoldNoSpace(paths: seq<bytes>)
    requires forall i :: 0 <= i < |paths| ==> 32 !in paths[i]
    ensures 32 !in Join(paths, 44)
  {
    if |paths| > 1 {
      JoinedHoldNoSpace(Init(paths));
    }
  }

  lemma JoinedPaths(paths: seq<bytes>)
    requires forall i :: 0 <= i < |paths| ==> PathGrammar(paths[i])
    ensures 32 !in Join(paths, 44)
    ensures paths != [] ==> Join(paths, 44) != [] && Split(Join(paths, 44), 44) == paths
  {
    hide PathGrammar, Split, Join, SumLength;
    JoinLength(paths);
    PathCount(paths);
    forall k | 0 <= k < |paths|
      ensures 44 !in paths[k] && 32 !in paths[k]
    {
      PathShape(paths[k]);
    }
    JoinedHoldNoSpace(paths);
    if paths != [] {
      SplitJoin(paths, 44);
    }
  }

  lemma SummaryIsSpaced(s: Seen)
    requires Sound(s) && !Silent(s)
    ensures Spaced(SummaryText(s), Words(s))
  {
    hide Ascii, Label, Join, SumLength, PathGrammar, Spaced, With, AddWord;
    var name, text, words := FAMILY_KEY + Label(s.progress.family), SUMMARY_PREFIX, PREFIX_WORDS;
    SpacedPrefix();
    KeysHoldNoSpace();
    LabelsHoldNoSpace(s.progress.family);
    JoinedPaths(s.paths);
    SpacedAdd(text, words, s.progress.family != NoFamily, name);
    text, words := With(text, s.progress.family != NoFamily, name), AddWord(words, s.progress.family != NoFamily, name);
    SpacedAdd(text, words, s.code != [], CODE_KEY + s.code);
    text, words := With(text, s.code != [], CODE_KEY + s.code), AddWord(words, s.code != [], CODE_KEY + s.code);
    SpacedAdd(text, words, s.status != [], STATUS_KEY + s.status);
    text := With(text, s.status != [], STATUS_KEY + s.status);
    words := AddWord(words, s.status != [], STATUS_KEY + s.status);
    SpacedAdd(text, words, s.paths != [], PATHS_KEY + Join(s.paths, 44));
  }

  lemma LookupAdd(words: seq<bytes>, present: bool, key: bytes, value: bytes, wanted: bytes)
    requires key != [] && wanted != []
    requires key == wanted || key[0] != wanted[0]
    ensures Lookup(AddWord(words, present, key + value), wanted) ==
            if present && key == wanted then value else Lookup(words, wanted)
  {
    var word := key + value;
    assert Init(words + [word]) == words && word[0] == key[0];
    assert word[..|key|] == key && word[|key|..] == value;
  }

  lemma LookupPrefix(wanted: bytes)
    requires wanted != [] && wanted[0] in {102, 99, 104, 112}
    ensures Lookup(PREFIX_WORDS, wanted) == []
  {
    var w := PREFIX_WORDS;
    assert w[0][0] == 119 && w[1][0] == 111 && w[2][0] == 110;
    assert Init(w) == w[..2] && Init(w[..2]) == w[..1] && Init(w[..1]) == [];
    assert Lookup(w[..1], wanted) == [];
    assert Lookup(w[..2], wanted) == [];
  }

  lemma LookupWords(s: Seen, wanted: bytes)
    requires wanted in {FAMILY_KEY, CODE_KEY, STATUS_KEY, PATHS_KEY}
    ensures Lookup(Words(s), wanted) ==
            if wanted == FAMILY_KEY then if s.progress.family != NoFamily then Label(s.progress.family) else []
            else if wanted == CODE_KEY then s.code
            else if wanted == STATUS_KEY then s.status
            else if s.paths != [] then Join(s.paths, 44) else []
  {
    assert FAMILY_KEY[0] == 102 && CODE_KEY[0] == 99 && STATUS_KEY[0] == 104 && PATHS_KEY[0] == 112;
    hide Ascii, Label, Join, Lookup, AddWord;
    var present := s.progress.family != NoFamily;
    var family := AddWord(PREFIX_WORDS, present, FAMILY_KEY + Label(s.progress.family));
    var code := AddWord(family, s.code != [], CODE_KEY + s.code);
    var status := AddWord(code, s.status != [], STATUS_KEY + s.status);
    LookupPrefix(wanted);
    LookupAdd(PREFIX_WORDS, present, FAMILY_KEY, Label(s.progress.family), wanted);
    LookupAdd(family, s.code != [], CODE_KEY, s.code, wanted);
    LookupAdd(code, s.status != [], STATUS_KEY, s.status, wanted);
    LookupAdd(status, s.paths != [], PATHS_KEY, Join(s.paths, 44), wanted);
  }

  /** Splitting the summary on spaces and commas gives back exactly what was recognised. */
  lemma ReaderRecoversSummary(s: Seen)
    requires Sound(s) && !Silent(s)
    ensures ReadSummary(SummaryText(s)) == FactsOf(s)
  {
    hide Ascii, Label, Join, Lookup, SumLength, PathGrammar, Words, SummaryText;
    SummaryIsSpaced(s);
    SplitJoin(Words(s), 32);
    LabelsHoldNoSpace(s.progress.family);
    JoinedPaths(s.paths);
    assert |FAMILY_KEY| == 7 && |CODE_KEY| == 5 && |STATUS_KEY| == 12 && |PATHS_KEY| == 16;
    LookupWords(s, FAMILY_KEY);
    LookupWords(s, CODE_KEY);
    LookupWords(s, STATUS_KEY);
    LookupWords(s, PATHS_KEY);
  }

  lemma ReaderRecoversNothing(s: Seen)
    requires Silent(s)
    ensures ReadSummary(SummaryText(s)) == FactsOf(s)
  {
    var words: seq<bytes> := [[]];
    assert Split<byte>([], 32) == words && Init(words) == [];
    assert |FAMILY_KEY| == 7 && |CODE_KEY| == 5 && |STATUS_KEY| == 12 && |PATHS_KEY| == 16;
    hide Ascii;
  }

  /** For every stream the summary is bounded and tells exactly what was recognised, also when that is nothing. */
  lemma SummaryOfStream(stream: bytes)
    ensures |SummaryText(Summarised(stream))| <= 4065 <= MAX_SUMMARY
    ensures ReadSummary(SummaryText(Summarised(stream))) == FactsOf(Summarised(stream))
  {
    hide SummaryText, ReadSummary, Observe, Sound, FactsOf;
    var s := Summarised(stream);
    ObserveAllIsSound(Split(stream, NEWLINE));
    SummaryIsBounded(s);
    if Silent(s) {
      ReaderRecoversNothing(s);
    } else {
      ReaderRecoversSummary(s);
    }
  }
}
