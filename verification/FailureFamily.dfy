/** Recognising the five npm rejection families across consecutive lines. */
module FailureFamily {
  import opened Text
  import opened Utf8

  datatype Family = NoFamily | PredicateMismatch | RepositoryMismatch | PrivateSource | UnsupportedRunner | MissingClaim

  datatype Stage = NoStage | Body | Predicate | RunnerConclusion

  datatype Progress = Progress(family: Family, stage: Stage)

  // Long templates are written as a short opening and the rest.
  const WRAPPER := Ascii("Error ") + Ascii("verifying sigstore ") + Ascii("provenance bundle:")
  const HEADER := Ascii("Invalid ") + Ascii("GitHub Actions SLSA v1 ") + Ascii("provenance predicate:")
  const UNSUPPORTED := Ascii("Unsupported ") + Ascii("GitHub Actions ")
  const RUNNER_INTRO := UNSUPPORTED + Ascii("runner ") + Ascii("environment: \"self-hosted\".")
  const RUNNER_CONCLUSION :=
    Ascii("Only ") + Ascii("\"github-hosted\" runners are ") + Ascii("supported when publishing with provenance.")
  const PRIVATE_SOURCE :=
    UNSUPPORTED + Ascii("source ") + Ascii("repository ") + Ascii("visibility: \"private\". ") +
    Ascii("Only public source repositories are supported when publishing with provenance.")
  const MISSING_CLAIM := Ascii("Missing ") + Ascii("SourceRepositoryRef ") + Ascii("in signing certificate")
  const REPOSITORY_INTRO :=
    Ascii("Failed ") + Ascii("to validate repository information: ") + Ascii("package.json: \"repository.url\" is \"")
  const STATUS_422 := Ascii("422 ")
  const ROUTE := Ascii("Unprocessable ") + Ascii("Entity - PUT ") + Ascii("https://registry.npmjs.org/")
  const SPACE: bytes := [32]
  const SEPARATOR: bytes := [44, 32]
  const COMMA: bytes := [44]
  const QUOTE: bytes := [34]

  function Label(family: Family): bytes {
    match family
    case NoFamily => []
    case PredicateMismatch => Ascii("predicate-field-mismatch")
    case RepositoryMismatch => Ascii("repository-metadata-mismatch")
    case PrivateSource => Ascii("private-source-repository")
    case UnsupportedRunner => Ascii("unsupported-runner-environment")
    case MissingClaim => Ascii("missing-certificate-claim")
  }

  /** `strings.TrimSpace(s) == ""`. */
  predicate Blank(s: bytes) {
    forall r :: r in DecodeAll(s) ==> SpaceCode(r as int)
  }

  predicate CompleteRepositoryMismatch(body: bytes) {
    var values := CutPrefix(body, REPOSITORY_INTRO);
    values.Some? &&
    var first := Cut(values.value, QUOTE);
    first.found &&
    var expected := CutPrefix(first.after, Ascii(", expected to match \""));
    expected.Some? &&
    var second := Cut(expected.value, QUOTE);
    second.found && second.before != [] && second.after == Ascii(" from provenance")
  }

  datatype Binding = Binding(field: bytes, claim: bytes)

  const DEFINITION_FIELD := Ascii("buildDefinition.")
  const BINDINGS: seq<Binding> := [
    Binding(DEFINITION_FIELD + Ascii("buildType: "), Ascii("buildType")),
    Binding(DEFINITION_FIELD + Ascii("externalParameters.workflow.ref: "), Ascii("SourceRepositoryRef")),
    Binding(DEFINITION_FIELD + Ascii("externalParameters.workflow.repository: "), Ascii("SourceRepositoryURI")),
    Binding(DEFINITION_FIELD + Ascii("externalParameters.workflow.path: "), Ascii("BuildConfigURI")),
    Binding(DEFINITION_FIELD + Ascii("internalParameters.github.event_name: "), Ascii("BuildTrigger")),
    Binding(DEFINITION_FIELD + Ascii("internalParameters.github.repository_id: "), Ascii("SourceRepositoryIdentifier")),
    Binding(DEFINITION_FIELD + Ascii("internalParameters.github.repository_owner_id: "),
            Ascii("SourceRepositoryOwnerIdentifier")),
    Binding(DEFINITION_FIELD + Ascii("resolvedDependencies[0].uri: "), Ascii("SourceRepositoryURI")),
    Binding(DEFINITION_FIELD + Ascii("resolvedDependencies[0].digest.gitCommit: "), Ascii("SourceRepositoryDigest")),
    Binding(Ascii("runDetails.") + Ascii("builder.id: "), Ascii("builderId"))]

  /** Only the first binding whose field starts the detail is looked at. */
  predicate CompletePredicateMismatch(detail: bytes, bindings: seq<Binding>) {
    bindings != [] &&
    var value := CutPrefix(detail, bindings[0].field);
    if value.None? then CompletePredicateMismatch(detail, bindings[1..])
    else
      var halves := Cut(value.value, Ascii("does not match expected value for ") + bindings[0].claim + Ascii(": "));
      && halves.found && !Blank(halves.after)
      && (halves.before == [] || (HasSuffix(halves.before, SPACE) && !Blank(halves.before)))
  }

  predicate AllDetails(text: bytes) {
    forall detail :: detail in SplitOn(text, SEPARATOR) ==> CompletePredicateMismatch(detail, BINDINGS)
  }

  /** A list of complete mismatches settles the family, unless a trailing comma announces more lines. */
  function ObserveDetails(details: bytes): Option<Progress> {
    var text := TrimSuffix(details, COMMA);
    if !AllDetails(text) then None
    else if HasSuffix(details, COMMA) then Some(Progress(NoFamily, Predicate))
    else Some(Progress(PredicateMismatch, NoStage))
  }

  /** The message of a line: without the status and the registry route. */
  function Message(rest: bytes): bytes {
    var message := TrimPrefix(rest, STATUS_422);
    if HasPrefix(message, ROUTE) then Cut(message[|ROUTE|..], Ascii(" - ")).after else message
  }

  /** The body of a wrapped message. */
  function ObserveBody(body: bytes): Progress {
    if body == HEADER then Progress(NoFamily, Predicate)
    else if HasPrefix(body, HEADER + SPACE) then
      var p := ObserveDetails(TrimPrefix(body, HEADER + SPACE));
      if p.Some? then p.value else Progress(NoFamily, NoStage)
    else if CompleteRepositoryMismatch(body) then Progress(RepositoryMismatch, NoStage)
    else if body == PRIVATE_SOURCE then Progress(PrivateSource, NoStage)
    else if body == RUNNER_INTRO then Progress(NoFamily, RunnerConclusion)
    else if body == RUNNER_INTRO + SPACE + RUNNER_CONCLUSION then Progress(UnsupportedRunner, NoStage)
    else if body == MISSING_CLAIM then Progress(MissingClaim, NoStage)
    else Progress(NoFamily, NoStage)
  }

  /** What one npm error line does to the family and its stage. */
  function FamilyStep(p: Progress, rest: bytes, complete: bool): Progress {
    if p.family != NoFamily then p
    else if !complete then Progress(NoFamily, NoStage)
    else
      var message := Message(rest);
      if p.stage == RunnerConclusion && message == RUNNER_CONCLUSION then Progress(UnsupportedRunner, NoStage)
      else if p.stage == Predicate && ObserveDetails(message).Some? then ObserveDetails(message).value
      else if message == WRAPPER then Progress(NoFamily, Body)
      else
        var body := CutPrefix(message, WRAPPER + SPACE);
        if body.Some? then ObserveBody(body.value)
        else if p.stage == Body then ObserveBody(message)
        else Progress(NoFamily, NoStage)
  }

  // ---- npm prints a rejection on one line or spreads it over several: both are recognised alike.

  lemma OtherStart(s: bytes, prefix: bytes)
    requires prefix != [] && (s == [] || s[0] != prefix[0])
    ensures !HasPrefix(s, prefix)
  {
  }

  lemma TemplateBytes()
    ensures WRAPPER[0] == 69 && STATUS_422[0] == 52 && ROUTE[0] == 85 && ROUTE[2] == 112
    ensures HEADER[0] == 73 && RUNNER_CONCLUSION[0] == 79 && REPOSITORY_INTRO[0] == 70
    ensures RUNNER_INTRO[0] == 85 && RUNNER_INTRO[2] == 115 && RUNNER_INTRO[27] == 114 && PRIVATE_SOURCE[27] == 115
  {
  }

  lemma WrappedMessage(body: bytes)
    ensures Message(WRAPPER + SPACE + body) == WRAPPER + SPACE + body && Message(WRAPPER) == WRAPPER
  {
    TemplateBytes();
    OtherStart(WRAPPER + SPACE + body, STATUS_422);
    OtherStart(WRAPPER + SPACE + body, ROUTE);
    OtherStart(WRAPPER, STATUS_422);
    OtherStart(WRAPPER, ROUTE);
  }

  /** The wrapper and its body on one line mean what they mean on two consecutive lines. */
  lemma WrapperMayBreakTheLine(body: bytes)
    requires Message(body) == body && body != WRAPPER && !HasPrefix(body, WRAPPER + SPACE)
    ensures var start := Progress(NoFamily, NoStage);
            FamilyStep(FamilyStep(start, WRAPPER, true), body, true) == FamilyStep(start, WRAPPER + SPACE + body, true)
  {
    hide ObserveBody, Message;
    WrappedMessage(body);
    var whole := WRAPPER + SPACE + body;
    assert |whole| > |WRAPPER|;
    assert whole[..|WRAPPER + SPACE|] == WRAPPER + SPACE && whole[|WRAPPER + SPACE|..] == body;
  }

  lemma OtherAt(s: bytes, prefix: bytes, at: nat)
    requires at < |prefix| && at < |s| && s[at] != prefix[at]
    ensures !HasPrefix(s, prefix) && s != prefix
  {
  }

  /** A message that opens like the runner template: past every other template, and not trimmed. */
  lemma RunnerMessage(tail: bytes)
    ensures var s := RUNNER_INTRO + tail;
            && Message(s) == s && s != WRAPPER && !HasPrefix(s, WRAPPER + SPACE)
            && s != HEADER && !HasPrefix(s, HEADER + SPACE) && s != PRIVATE_SOURCE && !CompleteRepositoryMismatch(s)
            && s != RUNNER_CONCLUSION
  {
    var s := RUNNER_INTRO + tail;
    hide Ascii;
    TemplateBytes();
    OtherAt(s, STATUS_422, 0);
    OtherAt(s, ROUTE, 2);
    OtherAt(s, WRAPPER, 0);
    OtherAt(s, WRAPPER + SPACE, 0);
    OtherAt(s, HEADER, 0);
    OtherAt(s, HEADER + SPACE, 0);
    OtherAt(s, PRIVATE_SOURCE, 27);
    OtherAt(s, RUNNER_CONCLUSION, 0);
    OtherAt(s, REPOSITORY_INTRO, 0);
  }

  /** The two sentences of the runner template may stand on one line or on two. */
  lemma RunnerMayBreakTheLine()
    ensures var wrapped := Progress(NoFamily, Body);
            && FamilyStep(FamilyStep(wrapped, RUNNER_INTRO, true), RUNNER_CONCLUSION, true) ==
               FamilyStep(wrapped, RUNNER_INTRO + SPACE + RUNNER_CONCLUSION, true) ==
               Progress(UnsupportedRunner, NoStage)
  {
    hide Message, CompleteRepositoryMismatch;
    RunnerMessage([]);
    assert RUNNER_INTRO + [] == RUNNER_INTRO;
    RunnerMessage(SPACE + RUNNER_CONCLUSION);
    Assoc(RUNNER_INTRO, SPACE, RUNNER_CONCLUSION);
    ConclusionMessage();
  }

  lemma ConclusionMessage()
    ensures Message(RUNNER_CONCLUSION) == RUNNER_CONCLUSION
  {
    TemplateBytes();
    OtherAt(RUNNER_CONCLUSION, STATUS_422, 0);
    OtherAt(RUNNER_CONCLUSION, ROUTE, 0);
  }

  /** Every bound field starts with `b` or `r`, so a list of mismatches is never taken for another template. */
  lemma BindingStarts(i: nat)
    requires i < |BINDINGS|
    ensures BINDINGS[i].field != [] && BINDINGS[i].field[0] in {98, 114}
  {
  }

  lemma {:induction false} MismatchHasBinding(detail: bytes, from: nat)
    requires from <= |BINDINGS| && CompletePredicateMismatch(detail, BINDINGS[from..])
    ensures exists i :: 0 <= i < |BINDINGS| && HasPrefix(detail, BINDINGS[i].field)
    decreases |BINDINGS| - from
  {
    assert BINDINGS[from..][0] == BINDINGS[from];
    if !HasPrefix(detail, BINDINGS[from].field) {
      assert BINDINGS[from..][1..] == BINDINGS[from + 1..];
      MismatchHasBinding(detail, from + 1);
    }
  }

  lemma DetailsAreNotTrimmed(text: bytes, more: bytes)
    requires AllDetails(text)
    ensures text != [] && Message(text + more) == text + more
  {
    var detail := SplitOn(text, SEPARATOR)[0];
    assert detail in SplitOn(text, SEPARATOR) && HasPrefix(text, detail);
    assert BINDINGS[0..] == BINDINGS;
    MismatchHasBinding(detail, 0);
    var i :| 0 <= i < |BINDINGS| && HasPrefix(detail, BINDINGS[i].field);
    NotTrimmed(text + more, detail, i);
  }

  lemma NotTrimmed(s: bytes, detail: bytes, i: nat)
    requires i < |BINDINGS| && HasPrefix(detail, BINDINGS[i].field) && HasPrefix(s, detail)
    ensures Message(s) == s
  {
    hide Ascii;
    BindingStarts(i);
    TemplateBytes();
    assert detail[0] == BINDINGS[i].field[0] && s[..|detail|][0] == detail[0];
    OtherAt(s, STATUS_422, 0);
    OtherAt(s, ROUTE, 0);
  }

  /** A list of mismatches may break after any comma. */
  lemma DetailsMayBreakTheLine(first: bytes, rest: bytes)
    requires AllDetails(first) && ObserveDetails(rest).Some?
    ensures var listing := Progress(NoFamily, Predicate);
            && FamilyStep(FamilyStep(listing, first + COMMA, true), rest, true) ==
               FamilyStep(listing, first + SEPARATOR + rest, true)
  {
    hide AllDetails, Message, HasPrefix;
    var whole, text := first + SEPARATOR + rest, TrimSuffix(rest, COMMA);
    DetailsAreNotTrimmed(first, COMMA);
    DetailsAreNotTrimmed(first, SEPARATOR + rest);
    Assoc(first, SEPARATOR, rest);
    DetailsAreNotTrimmed(text, if HasSuffix(rest, COMMA) then COMMA else []);
    assert rest == text + if HasSuffix(rest, COMMA) then COMMA else [];
    assert TrimSuffix(first + COMMA, COMMA) == first && HasSuffix(first + COMMA, COMMA);
    assert HasSuffix(whole, COMMA) <==> HasSuffix(rest, COMMA);
    assert TrimSuffix(whole, COMMA) == first + SEPARATOR + text;
    AllDetailsAcross(first, text);
  }

  lemma AllDetailsAcross(a: bytes, b: bytes)
    ensures AllDetails(a + SEPARATOR + b) <==> AllDetails(a) && AllDetails(b)
  {
    hide SplitOn, CompletePredicateMismatch;
    SplitOnAcross(a, b, SEPARATOR);
  }

  /** A family, once recognised, is never replaced; a cut-off line recognises nothing and breaks the sequence. */
  lemma FamilyIsStable(p: Progress, rest: bytes, complete: bool)
    ensures p.family != NoFamily ==> FamilyStep(p, rest, complete) == p
    ensures p.family == NoFamily && !complete ==> FamilyStep(p, rest, complete) == Progress(NoFamily, NoStage)
  {
  }
}
