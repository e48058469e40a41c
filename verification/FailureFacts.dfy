/** What the summary of npm output says, in terms of the lines: the family, the code, the status and the paths. */
module FailureFacts {
  import opened Text
  import opened Utf8
  import opened FailurePaths
  import opened FailureFamily
  import opened Recognizer
  import opened FailureTemplates
  import Phrases

  // ---- The templates, in full.

  lemma WrapperText()
    ensures WRAPPER == Ascii("Error verifying sigstore provenance bundle:")
  {
    hide Ascii;
    Phrases.Wrapper();
  }

  lemma HeaderText()
    ensures HEADER == Ascii("Invalid GitHub Actions SLSA v1 provenance predicate:")
  {
    hide Ascii;
    Phrases.Header();
  }

  lemma ClaimText()
    ensures MISSING_CLAIM == Ascii("Missing SourceRepositoryRef in signing certificate")
  {
    hide Ascii;
    Phrases.Claim();
  }

  lemma RouteText()
    ensures ROUTE == Ascii("Unprocessable Entity - PUT https://registry.npmjs.org/")
  {
    hide Ascii;
    Phrases.Route();
  }

  lemma RunnerText()
    ensures RUNNER_INTRO == Ascii("Unsupported GitHub Actions runner environment: \"self-hosted\".")
  {
    hide Ascii;
    Phrases.Runner();
  }

  lemma ConclusionText()
    ensures RUNNER_CONCLUSION ==
            Ascii("Only \"github-hosted\" runners are ") +
            Ascii("supported when publishing with provenance.")
  {
    hide Ascii;
    Phrases.Conclusion();
  }

  lemma SourceText()
    ensures PRIVATE_SOURCE ==
            Ascii("Unsupported GitHub Actions source repository visibility: \"private\". ") +
            Ascii("Only public source repositories are supported when publishing with provenance.")
  {
    hide Ascii;
    Phrases.Source();
  }

  lemma RepositoryText()
    ensures REPOSITORY_INTRO ==
            Ascii("Failed to validate repository information: ") +
            Ascii("package.json: \"repository.url\" is \"")
  {
    hide Ascii;
    Phrases.Repository();
  }

  /** Every fixed part of the templates. */
  lemma TemplateTexts()
    ensures STATUS_422 == Ascii("422 ") && ROUTE == Ascii("Unprocessable Entity - PUT https://registry.npmjs.org/")
    ensures WRAPPER == Ascii("Error verifying sigstore provenance bundle:")
    ensures HEADER == Ascii("Invalid GitHub Actions SLSA v1 provenance predicate:")
    ensures MISSING_CLAIM == Ascii("Missing SourceRepositoryRef in signing certificate")
    ensures RUNNER_INTRO == Ascii("Unsupported GitHub Actions runner environment: \"self-hosted\".")
    ensures RUNNER_CONCLUSION ==
            Ascii("Only \"github-hosted\" runners are ") + Ascii("supported when publishing with provenance.")
    ensures PRIVATE_SOURCE ==
            Ascii("Unsupported GitHub Actions source repository visibility: \"private\". ") +
            Ascii("Only public source repositories are supported when publishing with provenance.")
    ensures REPOSITORY_INTRO ==
            Ascii("Failed to validate repository information: ") + Ascii("package.json: \"repository.url\" is \"")
  {
    hide Ascii;
    RepositoryText();
    RouteText();
    WrapperText();
    HeaderText();
    ClaimText();
    RunnerText();
    ConclusionText();
    SourceText();
  }

  // ---- The family of a stream.

  lemma LabelsDiffer()
    ensures Label(PrivateSource)[0] == 112 && Label(MissingClaim)[0] == 109
    ensures |Label(PredicateMismatch)| == 24 && |Label(RepositoryMismatch)| == 28 && |Label(PrivateSource)| == 25
    ensures |Label(UnsupportedRunner)| == 30 && |Label(MissingClaim)| == 25
  {
  }

  /** The summary names the family of the first rejection to end among the lines, and none without a rejection. */
  ghost predicate NamesFamily(lines: seq<bytes>, family: bytes) {
    && (family == Ascii("predicate-field-mismatch") <==> Rejected(lines, PredicateMismatch))
    && (family == Ascii("repository-metadata-mismatch") <==> Rejected(lines, RepositoryMismatch))
    && (family == Ascii("private-source-repository") <==> Rejected(lines, PrivateSource))
    && (family == Ascii("unsupported-runner-environment") <==> Rejected(lines, UnsupportedRunner))
    && (family == Ascii("missing-certificate-claim") <==> Rejected(lines, MissingClaim))
    && (family == [] <==> forall a, b, messages, f :: !Rejection(lines, a, b, messages, f))
  }

  lemma LabelNamesFamily(lines: seq<bytes>)
    ensures NamesFamily(lines, Label(ObserveAll(lines).progress.family))
  {
    LabelsDiffer();
    hide Ascii, ObserveAll, Rejected, Rejection;
    forall f | f != NoFamily
      ensures ObserveAll(lines).progress.family == f <==> Rejected(lines, f)
    {
      FamilyIffFirstRejection(lines, f);
    }
    NoFamilyIff(lines);
  }

  // ---- The code of a stream.

  ghost predicate NpmStart(start: bytes) {
    start == Ascii("npm error ") || start == Ascii("npm err! ")
  }

  lemma HeardMessage(start: bytes, rest: bytes)
    requires NpmStart(start)
    ensures NpmMessage(start + rest) == Some(rest)
  {
    NpmStarts();
    NpmMessageOf(start, rest);
  }

  /** What is read of a line: its first 2048 bytes, or all of it but a carriage return at the end. */
  function Heard(line: bytes): bytes {
    if |line| > 2048 then line[..2048] else TrimSuffix(line, [13])
  }

  /** A line of at most 2048 bytes that reports exactly this code. */
  ghost predicate SaysCode(line: bytes, code: bytes) {
    && |line| <= 2048 && GoodCode(code)
    && exists start :: NpmStart(start) && Heard(line) == start + Ascii("code ") + code
  }

  ghost function CodeOf(line: bytes): (code: Option<bytes>)
    ensures code.Some? ==> code.value != []
  {
    var rest := NpmMessage(Heard(line));
    if |line| <= 2048 && rest.Some? && HasPrefix(rest.value, CODE_FIELD) && GoodCode(rest.value[5..])
    then Some(rest.value[5..]) else None
  }

  lemma SaysCodeIff(line: bytes, code: bytes)
    ensures SaysCode(line, code) <==> CodeOf(line) == Some(code)
  {
    assert |CODE_FIELD| == 5;
    hide Ascii, GoodCode;
    if SaysCode(line, code) {
      var start :| NpmStart(start) && Heard(line) == start + CODE_FIELD + code;
      Assoc(start, CODE_FIELD, code);
      HeardMessage(start, CODE_FIELD + code);
      assert (CODE_FIELD + code)[..5] == CODE_FIELD && (CODE_FIELD + code)[5..] == code;
    }
    if CodeOf(line) == Some(code) {
      var start := StartOf(Heard(line));
      var rest := NpmMessage(Heard(line)).value;
      TakeDrop(rest, 5);
      Assoc(start, CODE_FIELD, code);
    }
  }

  lemma StartOf(text: bytes) returns (start: bytes)
    requires NpmMessage(text).Some?
    ensures NpmStart(start) && text == start + NpmMessage(text).value
  {
    NpmStarts();
    hide Ascii;
    start := if HasPrefix(text, ERROR_LINE) then ERROR_LINE else ERR_LINE;
    TakeDrop(text, |start|);
  }

  // ---- The status and the paths of a stream.

  /** A line that reports this status. */
  ghost predicate SaysStatus(line: bytes, status: bytes) {
    |status| == 3 && FailureStatus(status) && exists start, tail :: StatusAs(line, start, status, tail)
  }

  ghost predicate StatusAs(line: bytes, start: bytes, status: bytes, tail: bytes) {
    NpmStart(start) && Heard(line) == start + status + tail && (tail == [] || tail[0] == 32)
  }

  ghost function StatusOf(line: bytes): (status: Option<bytes>)
    ensures status.Some? ==> status.value != []
  {
    var rest := NpmMessage(Heard(line));
    if rest.Some? && |rest.value| >= 3 && FailureStatus(rest.value[..3]) && (|rest.value| > 3 ==> rest.value[3] == 32)
    then Some(rest.value[..3]) else None
  }

  lemma SaysStatusIff(line: bytes, status: bytes)
    ensures SaysStatus(line, status) <==> StatusOf(line) == Some(status)
  {
    hide Ascii, FailureStatus;
    if SaysStatus(line, status) {
      var start, tail :| StatusAs(line, start, status, tail);
      Assoc(start, status, tail);
      HeardMessage(start, status + tail);
      assert (status + tail)[..3] == status && (status + tail)[3..] == tail;
    }
    if StatusOf(line) == Some(status) {
      StatusOfIsSaid(line, status);
    }
  }

  lemma StatusOfIsSaid(line: bytes, status: bytes)
    requires StatusOf(line) == Some(status)
    ensures SaysStatus(line, status)
  {
    hide Ascii, FailureStatus, NpmMessage, Heard, NpmStart;
    var start := StartOf(Heard(line));
    var rest := NpmMessage(Heard(line)).value;
    var tail := rest[3..];
    TakeDrop(rest, 3);
    Assoc(start, status, tail);
    assert StatusAs(line, start, status, tail);
  }

  /** A line that reports this path after a status; a path that a cut-off line ends with is not taken. */
  ghost predicate SaysPath(line: bytes, path: bytes) {
    PathGrammar(path) && exists start, status, tail :: PathAs(line, start, status, path, tail)
  }

  ghost predicate PathAs(line: bytes, start: bytes, status: bytes, path: bytes, tail: bytes) {
    && NpmStart(start) && |status| == 3 && FailureStatus(status)
    && Heard(line) == start + status + [32] + path + tail
    && (if tail == [] then |line| <= 2048 else tail[0] == 32 || tail[0] == 9 || tail[0] == 61)
  }

  ghost function PathOf(line: bytes): Option<bytes> {
    if StatusOf(line).None? || |NpmMessage(Heard(line)).value| == 3 then None
    else
      var field := NpmMessage(Heard(line)).value[4..];
      if (FieldEnd(field) < |field| || |line| <= 2048) && PathGrammar(field[..FieldEnd(field)])
      then Some(field[..FieldEnd(field)]) else None
  }

  lemma {:induction false} FieldEndIs(field: bytes, tail: bytes)
    requires forall i :: 0 <= i < |field| ==> !Delimiter(field[i])
    requires tail == [] || Delimiter(tail[0])
    ensures FieldEnd(field + tail) == |field|
  {
    if field == [] {
      NothingAdded(tail);
    } else {
      assert (field + tail)[1..] == field[1..] + tail;
      FieldEndIs(field[1..], tail);
    }
  }

  lemma SaysPathIff(line: bytes, path: bytes)
    ensures SaysPath(line, path) <==> PathOf(line) == Some(path)
  {
    hide PathAs, PathOf, PathGrammar;
    if SaysPath(line, path) {
      var start, status, tail :| PathAs(line, start, status, path, tail);
      SaidIsPathOf(line, start, status, path, tail);
    }
    if PathOf(line) == Some(path) {
      PathOfIsSaid(line, path);
    }
  }

  lemma SaidIsPathOf(line: bytes, start: bytes, status: bytes, path: bytes, tail: bytes)
    requires PathGrammar(path) && PathAs(line, start, status, path, tail)
    ensures PathOf(line) == Some(path)
  {
    hide Ascii, FailureStatus, PathGrammar, Heard, NpmStart, NpmMessage;
    var rest := status + [32] + path + tail;
    assert Heard(line) == start + rest;
    HeardMessage(start, rest);
    PathShape(path);
    FieldEndIs(path, tail);
    assert rest[..3] == status && rest[4..] == path + tail;
    assert (path + tail)[..|path|] == path;
  }

  lemma RestParts(rest: bytes, n: nat)
    requires |rest| >= 4 + n && rest[3] == 32
    ensures rest == rest[..3] + [32] + rest[4..][..n] + rest[4..][n..]
  {
  }

  lemma PathOfIsSaid(line: bytes, path: bytes)
    requires PathOf(line) == Some(path)
    ensures SaysPath(line, path)
  {
    hide Ascii, FailureStatus, PathGrammar, FieldEnd, NpmMessage, Heard, NpmStart;
    var start := StartOf(Heard(line));
    var rest := NpmMessage(Heard(line)).value;
    var field, status := rest[4..], rest[..3];
    var tail := field[|path|..];
    RestParts(rest, |path|);
    StartedParts(start, status, path, tail);
    assert PathAs(line, start, status, path, tail);
  }

  lemma StartedParts(start: bytes, status: bytes, path: bytes, tail: bytes)
    ensures start + (status + [32] + path + tail) == start + status + [32] + path + tail
  {
  }

  // ---- One line, and all lines.

  lemma FactsStep(s: Seen, line: bytes)
    ensures var t := ObserveCut(s, line);
            && t.code == (if s.code == [] && CodeOf(line).Some? then CodeOf(line).value else s.code)
            && t.status == (if s.status == [] && StatusOf(line).Some? then StatusOf(line).value else s.status)
            && t.paths == (if PathOf(line).Some? then AddPath(s, PathOf(line).value).paths else s.paths)
  {
    hide Ascii, FamilyStep, GoodCode, PathGrammar, NpmMessage, FailureStatus, ObserveFields, CodeOf, StatusOf, PathOf;
    assert Heard(line) == if |line| <= MAX_LINE then TrimSuffix(line, RETURN) else CutLine(line);
    var rest := NpmMessage(Heard(line));
    if rest.Some? {
      var p := FamilyStep(s.progress, rest.value, |line| <= MAX_LINE);
      FieldsStep(s.(progress := p), line, rest.value);
      SamePaths(s, p, line);
    } else {
      NoFields(line);
    }
  }

  lemma SamePaths(s: Seen, p: Progress, line: bytes)
    ensures PathOf(line).Some? ==>
              AddPath(s.(progress := p), PathOf(line).value).paths == AddPath(s, PathOf(line).value).paths
  {
    hide PathOf, PathGrammar;
  }

  lemma NoFields(line: bytes)
    requires NpmMessage(Heard(line)).None?
    ensures CodeOf(line).None? && StatusOf(line).None? && PathOf(line).None?
  {
    hide NpmMessage, Heard, PathGrammar, GoodCode;
  }

  lemma FieldsStep(s: Seen, line: bytes, rest: bytes)
    requires NpmMessage(Heard(line)) == Some(rest)
    ensures var t := ObserveFields(s, rest, |line| <= MAX_LINE);
            && t.code == (if s.code == [] && CodeOf(line).Some? then CodeOf(line).value else s.code)
            && t.status == (if s.status == [] && StatusOf(line).Some? then StatusOf(line).value else s.status)
            && t.paths == (if PathOf(line).Some? then AddPath(s, PathOf(line).value).paths else s.paths)
  {
    assert |CODE_FIELD| == 5;
    CodeIsNoStatus();
    hide Ascii, GoodCode, PathGrammar, NpmMessage, Heard, FailureStatus, FieldEnd, AddPath, HasPrefix;
    if HasPrefix(rest, CODE_FIELD) {
    } else if StatusOf(line).None? {
    } else if |rest| > 3 {
      hide CodeOf, PathOf;
      PathStep(s.(status := if s.status == [] then rest[..3] else s.status), line, rest);
    }
  }

  lemma PathStep(s: Seen, line: bytes, rest: bytes)
    requires NpmMessage(Heard(line)) == Some(rest) && StatusOf(line).Some? && |rest| > 3
    ensures var field, t := rest[4..], ObserveFields(s, rest, |line| <= MAX_LINE);
            && t.paths == (if PathOf(line).Some? then AddPath(s, PathOf(line).value).paths else s.paths)
  {
    CodeIsNoStatus();
    hide Ascii, PathGrammar, NpmMessage, Heard, FailureStatus, HasPrefix, SumLength;
  }

  lemma CodeIsNoStatus()
    ensures forall rest :: HasPrefix(rest, CODE_FIELD) ==> |rest| >= 3 && !FailureStatus(rest[..3])
  {
    assert CODE_FIELD[0] == 99;
    hide Ascii;
    forall rest | HasPrefix(rest, CODE_FIELD)
      ensures |rest| >= 3 && !FailureStatus(rest[..3])
    {
      assert |CODE_FIELD| == 5 && rest[..5][0] == rest[0] == rest[..3][0];
    }
  }

  /** Some line says this code, and no earlier line says any. */
  ghost predicate FirstCode(lines: seq<bytes>, code: bytes) {
    exists i :: 0 <= i < |lines| && SaysCode(lines[i], code) && forall j, c :: 0 <= j < i ==> !SaysCode(lines[j], c)
  }

  ghost predicate FirstStatus(lines: seq<bytes>, status: bytes) {
    exists i :: 0 <= i < |lines| && SaysStatus(lines[i], status)
                && forall j, c :: 0 <= j < i ==> !SaysStatus(lines[j], c)
  }

  /** Every path is said by a line, and a path that a line says is missing only when there was no room for it. */
  ghost predicate PathsOfLines(lines: seq<bytes>, paths: seq<bytes>) {
    && (forall path :: path in paths ==> exists line :: line in lines && SaysPath(line, path))
    && (forall line, path :: line in lines && SaysPath(line, path) ==>
          path in paths || SumLength(paths) + |path| > MAX_PATHS_STATE)
  }

  /** The first code, the first status, and the paths. */
  ghost predicate NamesFields(lines: seq<bytes>, facts: Facts) {
    && (facts.code != [] ==> FirstCode(lines, facts.code))
    && (facts.code == [] ==> forall line, c :: line in lines ==> !SaysCode(line, c))
    && (facts.status != [] ==> FirstStatus(lines, facts.status))
    && (facts.status == [] ==> forall line, c :: line in lines ==> !SaysStatus(line, c))
    && PathsOfLines(lines, facts.paths)
  }

  lemma {:induction false} CodeIsFirst(lines: seq<bytes>)
    ensures var code := ObserveAll(lines).code;
            && (code != [] ==> FirstCode(lines, code))
            && (code == [] ==> forall line, c :: line in lines ==> !SaysCode(line, c))
  {
    hide ObserveCut, SaysCode, CodeOf;
    if lines != [] {
      var front, line := Init(lines), Last(lines);
      InitLast(lines);
      CodeIsFirst(front);
      FactsStep(ObserveAll(front), line);
      forall c
        ensures SaysCode(line, c) <==> CodeOf(line) == Some(c)
      {
        SaysCodeIff(line, c);
      }
      if ObserveAll(front).code != [] {
        var i :| 0 <= i < |front| && SaysCode(front[i], ObserveAll(front).code)
          && forall j, c :: 0 <= j < i ==> !SaysCode(front[j], c);
        assert lines[i] == front[i] && forall j :: 0 <= j < i ==> lines[j] == front[j];
      }
    }
  }

  lemma {:induction false} StatusIsFirst(lines: seq<bytes>)
    ensures var status := ObserveAll(lines).status;
            && (status != [] ==> FirstStatus(lines, status))
            && (status == [] ==> forall line, c :: line in lines ==> !SaysStatus(line, c))
  {
    hide ObserveCut, SaysStatus, StatusOf;
    if lines != [] {
      var front, line := Init(lines), Last(lines);
      InitLast(lines);
      StatusIsFirst(front);
      FactsStep(ObserveAll(front), line);
      forall c
        ensures SaysStatus(line, c) <==> StatusOf(line) == Some(c)
      {
        SaysStatusIff(line, c);
      }
      if ObserveAll(front).status != [] {
        var i :| 0 <= i < |front| && SaysStatus(front[i], ObserveAll(front).status)
          && forall j, c :: 0 <= j < i ==> !SaysStatus(front[j], c);
        assert lines[i] == front[i] && forall j :: 0 <= j < i ==> lines[j] == front[j];
      }
    }
  }

  lemma {:induction false} PathsAreSaid(lines: seq<bytes>)
    ensures PathsOfLines(lines, ObserveAll(lines).paths)
  {
    hide ObserveCut, SaysPath, PathOf, AddPath, PathGrammar;
    if lines != [] {
      var front, line := Init(lines), Last(lines);
      InitLast(lines);
      PathsAreSaid(front);
      FactsStep(ObserveAll(front), line);
      forall path
        ensures SaysPath(line, path) <==> PathOf(line) == Some(path)
      {
        SaysPathIff(line, path);
      }
      if PathOf(line).Some? {
        PathAdded(ObserveAll(front), line, PathOf(line).value);
      }
    }
  }

  lemma PathAdded(s: Seen, line: bytes, path: bytes)
    requires SaysPath(line, path)
    ensures var t := AddPath(s, path);
            && (forall p :: p in t.paths <==> p in s.paths || (p == path && t != s))
            && SumLength(t.paths) >= SumLength(s.paths)
            && (path in t.paths || SumLength(t.paths) + |path| > MAX_PATHS_STATE)
  {
    hide PathGrammar, PathAs;
    assert Init(s.paths + [path]) == s.paths;
  }

  // ---- The summary of a stream.

  /** What a reader of the summary finds is what the lines of the stream say. */
  lemma SummaryTellsTheLines(stream: bytes)
    ensures var facts := ReadSummary(SummaryText(Summarised(stream)));
            NamesFamily(Split(stream, NEWLINE), facts.family) && NamesFields(Split(stream, NEWLINE), facts)
  {
    hide NamesFamily, Split, ObserveAll, SummaryText, ReadSummary;
    hide FirstCode, FirstStatus, PathsOfLines, SaysCode, SaysStatus;
    var lines := Split(stream, NEWLINE);
    SummaryOfStream(stream);
    LabelNamesFamily(lines);
    CodeIsFirst(lines);
    StatusIsFirst(lines);
    PathsAreSaid(lines);
  }

  /** A stream that is one complete line. */
  lemma LoneLine(line: bytes, message: bytes, family: Family)
    requires Carries(line, message) && Settles([message], family) && NEWLINE !in line
    ensures ReadSummary(SummaryText(Summarised(line + [NEWLINE]))).family == Label(family)
  {
    hide Carries, Settles, ObserveAll, SummaryText, ReadSummary;
    SplitWithoutSeparator(line, NEWLINE);
    SplitSnoc(line, NEWLINE, NEWLINE);
    var lines := [line, []];
    assert Split(line + [NEWLINE], NEWLINE) == lines;
    assert lines[0..1] == [line];
    assert Rejection(lines, 0, 1, [message], family);
    SettlesSome([message], family);
    assert EndsFirst(lines, 1);
    FamilyIffFirstRejection(lines, family);
    SummaryOfStream(line + [NEWLINE]);
  }

  lemma NoLineBreak()
    ensures 10 !in ERROR_LINE && 10 !in WRAPPER && 10 !in MISSING_CLAIM
    ensures |WRAPPER| == 43 && WRAPPER[0] == 69 && |MISSING_CLAIM| == 50 && MISSING_CLAIM[49] == 101
  {
  }

  /** A missing certificate claim reported on one line. */
  lemma MissingClaimExample()
    ensures var message := Ascii("Error verifying sigstore provenance bundle:") + [32] +
                           Ascii("Missing SourceRepositoryRef in signing certificate");
            ReadSummary(SummaryText(Summarised(Ascii("npm error ") + message + [10]))).family ==
            Ascii("missing-certificate-claim")
  {
    WrapperText();
    ClaimText();
    NpmStarts();
    hide Ascii, ReadSummary, SummaryText, Summarised;
    LoneClaim();
  }

  /** A message that opens with `E` and is no longer than a line stands behind the npm start as it is. */
  lemma PlainLine(message: bytes)
    requires message != [] && message[0] == 69 && |message| <= 2038 && Last(message) != 13
    ensures Carries(ERROR_LINE + message, message)
  {
    NpmStarts();
    TemplateBytes();
    hide Ascii;
    OtherAt(message, STATUS_422, 0);
    OtherAt(message, ROUTE, 0);
    NothingAdded(message);
    NothingAdded(ERROR_LINE);
    NothingAdded(ERROR_LINE + message);
    assert Last(ERROR_LINE + message) == Last(message);
    assert CarriesAs(ERROR_LINE + message, message, ERROR_LINE, [], [], []);
  }

  lemma LoneClaim()
    ensures var line := ERROR_LINE + (WRAPPER + SPACE + MISSING_CLAIM);
            ReadSummary(SummaryText(Summarised(line + [10]))).family == Label(MissingClaim)
  {
    NoLineBreak();
    hide Ascii, ReadSummary, SummaryText, Summarised, Carries;
    var message := WRAPPER + SPACE + MISSING_CLAIM;
    assert message[0] == WRAPPER[0] == 69 && Last(message) == MISSING_CLAIM[49];
    PlainLine(message);
    assert Opens([message], MISSING_CLAIM);
    LoneLine(ERROR_LINE + message, message, MissingClaim);
  }

  /** One process: what its output is summarised as depends on all the bytes written, not on the writes. */
  method SummariseOutput(chunks: seq<bytes>) returns (text: bytes)
    ensures var lines := Split(Concat(chunks), NEWLINE);
            NamesFamily(lines, ReadSummary(text).family) && NamesFields(lines, ReadSummary(text))
  {
    hide NamesFamily, NamesFields, Split, ReadSummary;
    var recognizer := new FailureRecognizer();
    for i := 0 to |chunks|
      invariant recognizer.Valid() && recognizer.stream == Concat(chunks[..i])
      invariant fresh(recognizer)
    {
      assert Init(chunks[..i + 1]) == chunks[..i];
      recognizer.Write(chunks[i]);
    }
    assert chunks[..|chunks|] == chunks;
    text := recognizer.Summary();
    SummaryTellsTheLines(Concat(chunks));
  }

  // ---- Complete mismatches, in full.

  /** `"repository.url" is "actual", expected to match "expected" from provenance`, with no quote in either. */
  lemma RepositoryMismatchIff(body: bytes)
    ensures CompleteRepositoryMismatch(body) <==>
            exists actual, expected :: RepositoryTexts(body, actual, expected)
  {
    hide Ascii;
    if CompleteRepositoryMismatch(body) {
      var actual, expected := MismatchValues(body);
    }
    if actual, expected :| RepositoryTexts(body, actual, expected) {
      MismatchOfValues(body, actual, expected);
    }
  }

  const EXPECTED := Ascii(", expected to match \"")
  const PROVENANCE := Ascii(" from provenance")

  ghost predicate RepositoryTexts(body: bytes, actual: bytes, expected: bytes) {
    && body == REPOSITORY_INTRO + actual + QUOTE + EXPECTED + expected + QUOTE + PROVENANCE
    && 34 !in actual && 34 !in expected && expected != []
  }

  lemma CutAtQuote(s: bytes)
    ensures var halves := Cut(s, QUOTE);
            halves.found ==> s == halves.before + QUOTE + halves.after && 34 !in halves.before
  {
    var at := IndexOf(s, QUOTE);
    if at.Some? {
      forall i | 0 <= i < at.value
        ensures s[i] != 34
      {
        assert !HasPrefix(s[i..], QUOTE);
        assert s[i..][..1] == [s[i]];
      }
      TakeDrop(s, at.value);
      TakeDrop(s[at.value..], 1);
      DropDrop(s, at.value, 1);
      Assoc(s[..at.value], QUOTE, s[at.value + 1..]);
    }
  }

  lemma QuoteCuts(before: bytes, after: bytes)
    requires 34 !in before
    ensures Cut(before + QUOTE + after, QUOTE) == Halves(before, after, true)
  {
    var s := before + QUOTE + after;
    forall i | 0 <= i < |before|
      ensures !HasPrefix(s[i..], QUOTE)
    {
      assert s[i..][0] == before[i];
    }
    assert s[|before|..] == QUOTE + after && HasPrefix(QUOTE + after, QUOTE);
    IndexIsUnique(s, QUOTE, |before|);
    assert s[..|before|] == before && s[|before| + 1..] == after;
  }

  lemma PrefixCut(prefix: bytes, rest: bytes)
    ensures CutPrefix(prefix + rest, prefix) == Some(rest)
  {
    assert (prefix + rest)[..|prefix|] == prefix && (prefix + rest)[|prefix|..] == rest;
  }

  lemma MismatchOfValues(body: bytes, actual: bytes, expected: bytes)
    requires RepositoryTexts(body, actual, expected)
    ensures CompleteRepositoryMismatch(body)
  {
    hide Ascii, Cut, CutPrefix;
    var ending := expected + QUOTE + PROVENANCE;
    var values := actual + QUOTE + (EXPECTED + ending);
    assert body == REPOSITORY_INTRO + values;
    PrefixCut(REPOSITORY_INTRO, values);
    QuoteCuts(actual, EXPECTED + ending);
    PrefixCut(EXPECTED, ending);
    QuoteCuts(expected, PROVENANCE);
  }

  lemma MismatchValues(body: bytes) returns (actual: bytes, expected: bytes)
    requires CompleteRepositoryMismatch(body)
    ensures RepositoryTexts(body, actual, expected)
  {
    hide Ascii, Cut;
    var values := CutPrefix(body, REPOSITORY_INTRO).value;
    CutAtQuote(values);
    actual := Cut(values, QUOTE).before;
    var rest := Cut(values, QUOTE).after;
    var ending := CutPrefix(rest, EXPECTED).value;
    CutAtQuote(ending);
    expected := Cut(ending, QUOTE).before;
    TakeDrop(body, |REPOSITORY_INTRO|);
    TakeDrop(rest, |EXPECTED|);
    assert body == REPOSITORY_INTRO + (actual + QUOTE + (EXPECTED + (expected + QUOTE + PROVENANCE)));
  }

  /** The bound fields and the certificate claim each is compared with. */
  ghost predicate FieldClaim(field: bytes, claim: bytes) {
    var definition := Ascii("buildDefinition.");
    var workflow := definition + Ascii("externalParameters.workflow.");
    var github := definition + Ascii("internalParameters.github.");
    var dependency := definition + Ascii("resolvedDependencies[0].");
    || (field == definition + Ascii("buildType: ") && claim == Ascii("buildType"))
    || (field == workflow + Ascii("ref: ") && claim == Ascii("SourceRepositoryRef"))
    || (field == workflow + Ascii("repository: ") && claim == Ascii("SourceRepositoryURI"))
    || (field == workflow + Ascii("path: ") && claim == Ascii("BuildConfigURI"))
    || (field == github + Ascii("event_name: ") && claim == Ascii("BuildTrigger"))
    || (field == github + Ascii("repository_id: ") && claim == Ascii("SourceRepositoryIdentifier"))
    || (field == github + Ascii("repository_owner_id: ") && claim == Ascii("SourceRepositoryOwnerIdentifier"))
    || (field == dependency + Ascii("uri: ") && claim == Ascii("SourceRepositoryURI"))
    || (field == dependency + Ascii("digest.gitCommit: ") && claim == Ascii("SourceRepositoryDigest"))
    || (field == Ascii("runDetails.builder.id: ") && claim == Ascii("builderId"))
  }

  lemma WorkflowFields()
    ensures var workflow := DEFINITION_FIELD + Ascii("externalParameters.workflow.");
            && BINDINGS[1].field == workflow + Ascii("ref: ") && BINDINGS[2].field == workflow + Ascii("repository: ")
            && BINDINGS[3].field == workflow + Ascii("path: ")
  {
    hide Ascii;
    var opening := Ascii("externalParameters.workflow.");
    Phrases.Joins("externalParameters.workflow.", "ref: ", "externalParameters.workflow.ref: ");
    Phrases.Joins("externalParameters.workflow.", "repository: ", "externalParameters.workflow.repository: ");
    Phrases.Joins("externalParameters.workflow.", "path: ", "externalParameters.workflow.path: ");
    Assoc(DEFINITION_FIELD, opening, Ascii("ref: "));
    Assoc(DEFINITION_FIELD, opening, Ascii("repository: "));
    Assoc(DEFINITION_FIELD, opening, Ascii("path: "));
  }

  lemma GithubFields()
    ensures var github := DEFINITION_FIELD + Ascii("internalParameters.github.");
            && BINDINGS[4].field == github + Ascii("event_name: ")
            && BINDINGS[5].field == github + Ascii("repository_id: ")
            && BINDINGS[6].field == github + Ascii("repository_owner_id: ")
  {
    hide Ascii;
    var opening := Ascii("internalParameters.github.");
    Phrases.Joins("internalParameters.github.", "event_name: ", "internalParameters.github.event_name: ");
    Phrases.Joins("internalParameters.github.", "repository_id: ", "internalParameters.github.repository_id: ");
    Phrases.Joins("internalParameters.github.", "repository_owner_id: ",
                  "internalParameters.github.repository_owner_id: ");
    Assoc(DEFINITION_FIELD, opening, Ascii("event_name: "));
    Assoc(DEFINITION_FIELD, opening, Ascii("repository_id: "));
    Assoc(DEFINITION_FIELD, opening, Ascii("repository_owner_id: "));
  }

  lemma DependencyFields()
    ensures var dependency := DEFINITION_FIELD + Ascii("resolvedDependencies[0].");
            && BINDINGS[7].field == dependency + Ascii("uri: ")
            && BINDINGS[8].field == dependency + Ascii("digest.gitCommit: ")
    ensures BINDINGS[9].field == Ascii("runDetails.builder.id: ")
  {
    hide Ascii;
    var opening := Ascii("resolvedDependencies[0].");
    Phrases.Joins("resolvedDependencies[0].", "uri: ", "resolvedDependencies[0].uri: ");
    Phrases.Joins("resolvedDependencies[0].", "digest.gitCommit: ", "resolvedDependencies[0].digest.gitCommit: ");
    Assoc(DEFINITION_FIELD, opening, Ascii("uri: "));
    Assoc(DEFINITION_FIELD, opening, Ascii("digest.gitCommit: "));
    Phrases.Joins("runDetails.", "builder.id: ", "runDetails.builder.id: ");
  }

  lemma ClaimIsBinding(field: bytes, claim: bytes)
    ensures FieldClaim(field, claim) <==> exists i :: 0 <= i < |BINDINGS| && BINDINGS[i] == Binding(field, claim)
  {
    WorkflowFields();
    GithubFields();
    DependencyFields();
    hide Ascii;
    var b := Binding(field, claim);
    assert FieldClaim(field, claim) <==>
      || b == BINDINGS[0] || b == BINDINGS[1] || b == BINDINGS[2] || b == BINDINGS[3] || b == BINDINGS[4]
      || b == BINDINGS[5] || b == BINDINGS[6] || b == BINDINGS[7] || b == BINDINGS[8] || b == BINDINGS[9];
  }

  // ---- No field opens another.

  lemma OpeningBytes()
    ensures DEFINITION_FIELD[0] == 98 && BINDINGS[9].field[0] == 114
    ensures Ascii("buildType: ")[0] == 98 && Ascii("externalParameters.workflow.")[0] == 101
    ensures Ascii("internalParameters.github.")[0] == 105 && Ascii("resolvedDependencies[0].")[0] == 114
    ensures Ascii("ref: ")[0] == 114 && Ascii("ref: ")[2] == 102 && Ascii("path: ")[0] == 112
    ensures Ascii("repository: ")[0] == 114 && Ascii("repository: ")[2] == 112
    ensures Ascii("uri: ")[0] == 117 && Ascii("digest.gitCommit: ")[0] == 100
  {
  }

  lemma GithubBytes()
    ensures Ascii("event_name: ")[0] == 101 && Ascii("repository_id: ")[0] == 114
    ensures Ascii("repository_id: ")[11] == 105
    ensures Ascii("repository_owner_id: ")[0] == 114 && Ascii("repository_owner_id: ")[11] == 111
  {
  }

  /** Bytes that tell the fields apart. */
  lemma FieldBytes(detail: bytes, i: nat)
    requires i < |BINDINGS| && HasPrefix(detail, BINDINGS[i].field)
    ensures detail != [] && (detail[0] == 98 <==> i < 9) && (i < 9 ==> |detail| > 26)
    ensures i < 9 ==> detail[16] == if i == 0 then 98 else if i < 4 then 101 else if i < 7 then 105 else 114
    ensures 1 <= i < 4 ==> |detail| > 46 && detail[44] == (if i == 3 then 112 else 114)
    ensures 1 <= i < 3 ==> detail[46] == if i == 1 then 102 else 112
    ensures 4 <= i < 7 ==> |detail| > 53 && detail[42] == (if i == 4 then 101 else 114)
    ensures 5 <= i < 7 ==> detail[53] == if i == 5 then 105 else 111
    ensures 7 <= i < 9 ==> |detail| > 40 && detail[40] == (if i == 7 then 117 else 100)
  {
    WorkflowFields();
    GithubFields();
    DependencyFields();
    OpeningBytes();
    GithubBytes();
    hide Ascii;
    var field := BINDINGS[i].field;
    forall k: nat | k < |field|
      ensures detail[k] == field[k]
    {
      assert detail[..|field|][k] == detail[k];
    }
  }

  lemma OneField(detail: bytes, i: nat, j: nat)
    requires i < |BINDINGS| && HasPrefix(detail, BINDINGS[i].field)
    requires j < |BINDINGS| && HasPrefix(detail, BINDINGS[j].field)
    ensures i == j
  {
    FieldBytes(detail, i);
    FieldBytes(detail, j);
    hide Ascii, HasPrefix;
  }

  /** What stands after a field: an optional observed value that ends in a space, the sentence, the expected value. */
  predicate Compared(value: bytes, claim: bytes) {
    var halves := Cut(value, Ascii("does not match expected value for ") + claim + Ascii(": "));
    && halves.found && !Blank(halves.after)
    && (halves.before == [] || (HasSuffix(halves.before, SPACE) && !Blank(halves.before)))
  }

  lemma {:induction false} MismatchFrom(detail: bytes, from: nat, i: nat)
    requires from <= i < |BINDINGS| && HasPrefix(detail, BINDINGS[i].field)
    ensures CompletePredicateMismatch(detail, BINDINGS[from..]) <==>
            Compared(detail[|BINDINGS[i].field|..], BINDINGS[i].claim)
    decreases i - from
  {
    hide Ascii, Blank, Cut, HasSuffix;
    assert BINDINGS[from..][0] == BINDINGS[from];
    if from < i {
      if HasPrefix(detail, BINDINGS[from].field) {
        OneField(detail, from, i);
      }
      assert BINDINGS[from..][1..] == BINDINGS[from + 1..];
      MismatchFrom(detail, from + 1, i);
    }
  }

  /** `field` and `claim` belong together, and the sentence about the claim stands first behind the observed value. */
  ghost predicate MismatchTexts(detail: bytes, field: bytes, claim: bytes, observed: bytes, expected: bytes) {
    var sentence := Ascii("does not match expected value for ") + claim + Ascii(": ");
    var value := observed + sentence + expected;
    FieldClaim(field, claim) && detail == field + value && ComparedAs(value, sentence, observed, expected)
  }

  ghost predicate ComparedAs(value: bytes, sentence: bytes, observed: bytes, expected: bytes) {
    && value == observed + sentence + expected
    && (forall i :: 0 <= i < |observed| ==> !HasPrefix(value[i..], sentence))
    && !Blank(expected) && (observed == [] || (HasSuffix(observed, [32]) && !Blank(observed)))
  }

  lemma CutIff(s: bytes, sep: bytes, before: bytes, after: bytes)
    requires sep != []
    ensures Cut(s, sep) == Halves(before, after, true) <==>
            && s == before + sep + after
            && forall i :: 0 <= i < |before| ==> !HasPrefix(s[i..], sep)
  {
    if Cut(s, sep) == Halves(before, after, true) {
      var at := IndexOf(s, sep).value;
      TakeDrop(s, at);
      TakeDrop(s[at..], |sep|);
      DropDrop(s, at, |sep|);
      Assoc(before, sep, after);
    }
    if s == before + sep + after && forall i :: 0 <= i < |before| ==> !HasPrefix(s[i..], sep) {
      assert s[|before|..] == sep + after && HasPrefix(sep + after, sep);
      IndexIsUnique(s, sep, |before|);
      assert s[..|before|] == before && s[|before| + |sep|..] == after;
    }
  }

  lemma ComparedIff(value: bytes, claim: bytes)
    ensures var sentence := Ascii("does not match expected value for ") + claim + Ascii(": ");
            Compared(value, claim) <==> exists observed, expected :: ComparedAs(value, sentence, observed, expected)
  {
    var sentence := Ascii("does not match expected value for ") + claim + Ascii(": ");
    assert |sentence| > 0;
    hide Ascii, Blank, Cut, HasPrefix, HasSuffix;
    var halves := Cut(value, sentence);
    if Compared(value, claim) {
      CutIff(value, sentence, halves.before, halves.after);
      assert ComparedAs(value, sentence, halves.before, halves.after);
    }
    if observed, expected :| ComparedAs(value, sentence, observed, expected) {
      CutIff(value, sentence, observed, expected);
    }
  }

  /** A detail is complete exactly when it compares one of the ten fields with its claim. */
  lemma PredicateMismatchIff(detail: bytes)
    ensures CompletePredicateMismatch(detail, BINDINGS) <==>
            exists field, claim, observed, expected :: MismatchTexts(detail, field, claim, observed, expected)
  {
    hide Ascii, Blank, Cut, HasPrefix, HasSuffix, FieldClaim, Compared, CompletePredicateMismatch;
    assert BINDINGS[0..] == BINDINGS;
    if CompletePredicateMismatch(detail, BINDINGS) {
      MismatchHasBinding(detail, 0);
      var i :| 0 <= i < |BINDINGS| && HasPrefix(detail, BINDINGS[i].field);
      MismatchFrom(detail, 0, i);
      BindingTexts(detail, i);
    }
    if field, claim, observed, expected :| MismatchTexts(detail, field, claim, observed, expected) {
      ClaimIsBinding(field, claim);
      var i :| 0 <= i < |BINDINGS| && BINDINGS[i] == Binding(field, claim);
      var sentence := Ascii("does not match expected value for ") + claim + Ascii(": ");
      PrefixCut(field, observed + sentence + expected);
      FieldOpens(field, observed + sentence + expected);
      ComparedIff(observed + sentence + expected, claim);
      MismatchFrom(detail, 0, i);
    }
  }

  lemma FieldOpens(field: bytes, rest: bytes)
    ensures HasPrefix(field + rest, field) && (field + rest)[|field|..] == rest
  {
  }

  lemma BindingTexts(detail: bytes, i: nat)
    requires i < |BINDINGS| && HasPrefix(detail, BINDINGS[i].field)
    requires Compared(detail[|BINDINGS[i].field|..], BINDINGS[i].claim)
    ensures exists field, claim, observed, expected :: MismatchTexts(detail, field, claim, observed, expected)
  {
    hide Ascii, Blank, Cut, HasSuffix, FieldClaim, Compared;
    var field, claim := BINDINGS[i].field, BINDINGS[i].claim;
    var value := detail[|field|..];
    var sentence := Ascii("does not match expected value for ") + claim + Ascii(": ");
    TakeDrop(detail, |field|);
    assert BINDINGS[i] == Binding(field, claim);
    ClaimIsBinding(field, claim);
    ComparedIff(value, claim);
    var observed, expected :| ComparedAs(value, sentence, observed, expected);
    assert MismatchTexts(detail, field, claim, observed, expected);
  }
}
