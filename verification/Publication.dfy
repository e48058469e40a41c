/** `Publish`: entry revalidation, at most one npm mutation, and read-back. */
module Publication {
  import opened Text
  import opened Observations
  import opened Environments
  import opened Convergence
  import opened Diagnostics
  import opened Utf8

  const ALREADY_PUBLISHED := "windlass.verify.error.already-published-version"
  const BUNDLE_MISMATCH := "windlass.verify.error.bundle-byte-format-mismatch"
  const PERMISSION_DENIED := "windlass.verify.error.mutation-permission-denied"
  const METADATA_REQUIRED := "windlass.verify.error.prepublish-registry-metadata-required"
  const REJECTED := "windlass.verify.error.publish-rejected-unprocessable"
  const LINKAGE_MISMATCH := "windlass.verify.error.registry-linkage-mismatch"
  const INITIAL_PUBLICATION := "windlass.verify.error.unsupported-initial-publication"
  const PUBLISHER_MISMATCH := "windlass.verify.error.trusted-publisher-mismatch"
  const VERSION_MISMATCH := "windlass.verify.error.builder-version-mismatch"
  const PIN_MISMATCH := "windlass.verify.error.publish-npm-pin-mismatch"
  const LATE_CATEGORY := "publish-committed-after-rejection"
  const COMMITTED_LATE := WARNING_PREFIX + LATE_CATEGORY

  const ERROR_IDS := {ALREADY_PUBLISHED, BUNDLE_MISMATCH, PERMISSION_DENIED, METADATA_REQUIRED, REJECTED,
                      LINKAGE_MISMATCH, INITIAL_PUBLICATION, PUBLISHER_MISMATCH, VERSION_MISMATCH, PIN_MISMATCH}

  predicate IsErrorID(id: string) {
    id in ERROR_IDS
  }

  ghost predicate KnowsErrors(registry: Registry) {
    forall id :: IsErrorID(id) ==> id in registry && registry[id].severity.Error?
  }

  /** What `Publish` needs of the registry: reports are coherent, and it knows the IDs `Publish` uses. */
  ghost predicate Serves(registry: Registry) {
    && Coherent(registry) && KnowsErrors(registry)
    && COMMITTED_LATE in registry && registry[COMMITTED_LATE].severity.Warning?
  }

  /** The registry serves `Publish`, and a diagnostic whose only optional member may be an npm version is safe. */
  ghost predicate Registered(k: Contract) {
    && Serves(k.registry)
    && forall d: Diagnostic ::
         d.field == "" && d.actual.None? && (d.other == "" || ExactVersion(d.other)) ==> k.library.safe(d)
  }

  /** The category of an error ID. */
  function Category(id: string): string
    requires |ERROR_PREFIX| <= |id|
  {
    id[|ERROR_PREFIX|..]
  }

  lemma ErrorIDs(id: string)
    requires IsErrorID(id)
    ensures |ERROR_PREFIX| <= |id| && id == ERROR_PREFIX + Category(id)
  {
    var p := ERROR_PREFIX;
    assert |p| == 22;
    assert forall i :: 0 <= i < 22 ==> id[i] == p[i];
  }

  /** The category of every ID is listed. */
  ghost predicate ListsErrors(errors: seq<string>) {
    forall id :: IsErrorID(id) && |ERROR_PREFIX| <= |id| ==> Category(id) in errors
  }

  /** Every registry built from lists with the categories of these IDs serves `Publish`. */
  lemma BuiltServes(registry: Registry, errors: seq<string>, warnings: seq<string>, rows: seq<Override>)
    requires Built(registry, errors, warnings, rows) && forall row :: row in rows ==> ErrorOverride(row)
    requires ListsErrors(errors) && LATE_CATEGORY in warnings
    ensures Serves(registry)
  {
    hide Built, Coherent, KnowsErrors, ListsErrors, ErrorOverride;
    BuiltIsCoherent(registry, errors, warnings, rows);
    BuiltKnowsErrors(registry, errors, warnings, rows);
    BuiltKnowsWarning(registry, errors, warnings, rows, LATE_CATEGORY);
  }

  lemma BuiltKnowsErrors(registry: Registry, errors: seq<string>, warnings: seq<string>, rows: seq<Override>)
    requires Built(registry, errors, warnings, rows) && forall row :: row in rows ==> ErrorOverride(row)
    requires ListsErrors(errors)
    ensures KnowsErrors(registry)
  {
    hide Built, ErrorOverride, Category, IsErrorID;
    forall id | IsErrorID(id)
      ensures id in registry && registry[id].severity.Error?
    {
      BuiltKnowsID(registry, errors, warnings, rows, id);
    }
  }

  lemma BuiltKnowsID(registry: Registry, errors: seq<string>, warnings: seq<string>, rows: seq<Override>, id: string)
    requires Built(registry, errors, warnings, rows) && forall row :: row in rows ==> ErrorOverride(row)
    requires ListsErrors(errors) && IsErrorID(id)
    ensures id in registry && registry[id].severity.Error?
  {
    hide Built, ErrorOverride, Category, IsErrorID;
    ErrorIDs(id);
    BuiltKnowsError(registry, errors, warnings, rows, Category(id));
  }

  /** In particular the rows of the source give a registry that serves `Publish`. */
  lemma BuiltRegistryServes(registry: Registry, errors: seq<string>, warnings: seq<string>)
    requires Built(registry, errors, warnings, OVERRIDES)
    requires ListsErrors(errors) && LATE_CATEGORY in warnings
    ensures Serves(registry)
  {
    hide Built, ListsErrors, ErrorOverride, Serves;
    OverridesAreErrorOverrides();
    BuiltServes(registry, errors, warnings, OVERRIDES);
  }

  lemma BuiltKnowsError(registry: Registry, errors: seq<string>, warnings: seq<string>, rows: seq<Override>, c: string)
    requires Built(registry, errors, warnings, rows) && forall row :: row in rows ==> ErrorOverride(row)
    requires c in errors
    ensures ERROR_PREFIX + c in registry && registry[ERROR_PREFIX + c].severity.Error?
  {
    AfterRowsIsError(c, rows);
  }

  lemma BuiltKnowsWarning(registry: Registry, errors: seq<string>, warnings: seq<string>, rows: seq<Override>,
                          c: string)
    requires Built(registry, errors, warnings, rows) && c in warnings
    ensures WARNING_PREFIX + c in registry && registry[WARNING_PREFIX + c].severity.Warning?
  {
  }

  // ---- npm output.

  function Lowered(lower: char -> char, s: string): string {
    seq(|s|, i requires 0 <= i < |s| => lower(s[i]))
  }

  function LineFields(lower: char -> char, line: string): (fields: seq<string>)
    ensures NonEmptyFields(fields)
  {
    Fields(Lowered(lower, line))
  }

  predicate IsCodeLine(fields: seq<string>) {
    |fields| == 4 && fields[0] == "npm" && fields[1] in {"error", "err!"} && fields[2] == "code"
  }

  /** The code of the first code line, or "". */
  function FirstCode(lower: char -> char, lines: seq<string>): string {
    if lines == [] then ""
    else if IsCodeLine(LineFields(lower, lines[0])) then LineFields(lower, lines[0])[3]
    else FirstCode(lower, lines[1..])
  }

  function CodeOf(lower: char -> char, output: string): string {
    FirstCode(lower, Split(output, '\n'))
  }

  /** Line `i` is the first code line, and it gives the code. */
  predicate FirstCodeLine(lower: char -> char, lines: seq<string>, i: nat, code: string) {
    && i < |lines| && IsCodeLine(LineFields(lower, lines[i])) && code == LineFields(lower, lines[i])[3]
    && forall j :: 0 <= j < i ==> !IsCodeLine(LineFields(lower, lines[j]))
  }

  /** The code is that of the first code line, and empty only when there is none. */
  ghost predicate CodeFound(lower: char -> char, lines: seq<string>, code: string) {
    if code == "" then forall j :: 0 <= j < |lines| ==> !IsCodeLine(LineFields(lower, lines[j]))
    else exists i: nat :: FirstCodeLine(lower, lines, i, code)
  }

  method NpmErrorCode(lower: char -> char, output: string) returns (code: string)
    ensures code == CodeOf(lower, output)
    ensures CodeFound(lower, Split(output, '\n'), code)
  {
    hide LineFields, Split;
    var lines := Split(output, '\n');
    for i := 0 to |lines|
      invariant FirstCode(lower, lines) == FirstCode(lower, lines[i..])
      invariant forall j :: 0 <= j < i ==> !IsCodeLine(LineFields(lower, lines[j]))
    {
      var fields := LineFields(lower, lines[i]);
      if |fields| == 4 && fields[0] == "npm" && fields[1] == "error" && fields[2] == "code" {
        assert FirstCodeLine(lower, lines, i, fields[3]);
        return fields[3];
      }
      if |fields| == 4 && fields[0] == "npm" && fields[1] == "err!" && fields[2] == "code" {
        assert FirstCodeLine(lower, lines, i, fields[3]);
        return fields[3];
      }
    }
    return "";
  }

  /** Codes that prove npm stopped before committing anything. */
  function DefinitiveError(code: string): Option<string> {
    if code in {"eneedauth", "e404"} then Some(PUBLISHER_MISMATCH)
    else if code in {"e401", "e403"} then Some(PERMISSION_DENIED)
    else None
  }

  // ---- Answers.

  /** What `Publish` returns; `error` is the ID chosen for the failure. A run whose error cannot be put into a
      diagnostic ends without a report. */
  datatype Result =
    | Success(mutated: bool, report: Report)
    | Failure(state: State, mutated: bool, error: string, report: Report)
    | Unreported

  predicate Mutated(r: Result) {
    !r.Unreported? && r.mutated
  }

  function IdOr(k: Contract, id: Option<string>, fallback: string): string {
    if id.Some? && id.value in k.registry then id.value else fallback
  }

  /** The entry of a failure; a pin mismatch carries the npm version as evidence. */
  function FailureEntry(k: Contract, id: string, check: bytes, message: bytes, metadata: Option<Metadata>): Diagnostic
    requires id in k.registry
  {
    WithEvidence(NewDiagnostic(k, id, check, message), metadata)
  }

  function WithEvidence(entry: Diagnostic, metadata: Option<Metadata>): Diagnostic {
    if entry.id == PIN_MISMATCH && metadata.Some? && metadata.value.publishNpmVersion.Some?
    then entry.(other := metadata.value.publishNpmVersion.value)
    else entry
  }

  const READBACK_CHECK := Ascii("npm.publish.readback")
  const LATE_MESSAGE := Ascii("npm reported E422 but registry read-back observed a committed publication")

  /** The warning added when npm reported E422 although the publication was committed. */
  function LateWarnings(k: Contract, late: bool): seq<Diagnostic>
    requires Registered(k)
  {
    if late then [NewDiagnostic(k, COMMITTED_LATE, READBACK_CHECK, LATE_MESSAGE)] else []
  }

  ghost predicate GoodReport(k: Contract, w: World, r: Report, entries: seq<Diagnostic>, metadata: Option<Metadata>) {
    && Valid(k, r) && r.runInvocation == w.runInvocation && r.metadata == metadata
    && multiset(r.diagnostics) == multiset(entries)
  }

  ghost predicate SucceededWith(k: Contract, w: World, r: Result, mutated: bool, late: bool)
    requires Registered(k)
  {
    && r.Success? && r.mutated == mutated && r.report.result == Pass
    && GoodReport(k, w, r.report, LateWarnings(k, late), VersionMetadata(w))
  }

  /** The failure report: the chosen error plus the late-commit warning when it applies. The chosen ID is the primary
      one exactly when the registry lists it as an error, whatever warning is added. */
  ghost predicate ReportsFailure(k: Contract, w: World, r: Report, error: string, late: bool,
                                 metadata: Option<Metadata>, carried: Option<bytes>)
    requires Registered(k)
  {
    && error in k.registry
    && (exists check, message ::
          && (carried.Some? ==> message == carried.value)
          && GoodReport(k, w, r, [FailureEntry(k, error, check, message, metadata)] + LateWarnings(k, late), metadata))
    && (r.primary == Some(error) <==> k.registry[error].severity.Error?)
    && (k.registry[error].severity.Warning? ==> r.primary.None? && r.result == Pass)
  }

  /** How a run fails: with a report, or without one when it carries a foreign text that no report accepts. */
  ghost predicate FailedWith(k: Contract, w: World, r: Result, state: State, mutated: bool, error: string, late: bool,
                             metadata: Option<Metadata>, carried: Option<bytes>)
    requires Registered(k)
  {
    && error in k.registry
    && if carried.Some? && !Reportable(carried.value) then r.Unreported?
       else
         && r.Failure? && r.state == state && r.mutated == mutated && r.error == error
         && ReportsFailure(k, w, r.report, error, late, metadata, carried)
  }

  method ReportSuccess(k: Contract, w: World, mutated: bool, late: bool, metadata: Option<Metadata>) returns (r: Result)
    requires Registered(k) && w.runInvocation != Some("") && metadata == VersionMetadata(w)
    ensures SucceededWith(k, w, r, mutated, late)
  {
    hide ExactVersion, Ascii, ValidUtf8, Valid, ValidDiagnostic, Registered;
    var extra := LateWarnings(k, late);
    LateWarningsAreValid(k, late);
    MetadataIsValid(k, w);
    var report := Build(k, w.runInvocation, extra, metadata);
    SameMembers(report.value.diagnostics, extra);
    OnlyWarningsPass(k, report.value);
    r := Success(mutated, report.value);
  }

  lemma OnlyWarningsPass(k: Contract, r: Report)
    requires Valid(k, r) && forall d :: d in r.diagnostics ==> d.severity.Warning?
    ensures r.result == Pass && r.primary.None?
  {
  }

  /** `failure`; `carried` is the foreign text of the error, if its text is foreign. */
  method ReportFailure(k: Contract, w: World, state: State, mutated: bool, id: string, check: string, message: bytes,
                       late: bool, metadata: Option<Metadata>, ghost carried: Option<bytes>) returns (r: Result)
    requires Registered(k) && w.runInvocation != Some("") && id in k.registry && check != ""
    requires if carried.Some? then message == carried.value else Reportable(message)
    requires metadata.None? || metadata == VersionMetadata(w)
    ensures FailedWith(k, w, r, state, mutated, id, late, metadata, carried)
  {
    hide ExactVersion, Valid, ValidDiagnostic, ValidUtf8, Ascii, Registered, Reportable;
    CheckIsReportable(check);
    PlainIsSafe(k, id, Ascii(check), message);
    var plain := New(k, id, Ascii(check), message);
    if plain.None? {
      return Unreported;
    }
    var entry := WithEvidence(plain.value, metadata);
    var extra := LateWarnings(k, late);
    var entries := [entry] + extra;
    EntriesAreValid(k, w, id, Ascii(check), message, late, metadata);
    var report := Build(k, w.runInvocation, entries, metadata);
    hide LateWarnings, WithEvidence;
    PrimaryOfFailure(k, entry, extra, report.value);
    assert entry == FailureEntry(k, id, Ascii(check), message, metadata);
    assert GoodReport(k, w, report.value,
                      [FailureEntry(k, id, Ascii(check), message, metadata)] + LateWarnings(k, late), metadata);
    r := Failure(state, mutated, id, report.value);
  }

  /** A failure whose text is fixed by the program, which is always reported. */
  method ReportFixed(k: Contract, w: World, state: State, mutated: bool, id: string, check: string, message: string,
                     late: bool, metadata: Option<Metadata>) returns (r: Result)
    requires Registered(k) && w.runInvocation != Some("") && id in k.registry && check != "" && message != ""
    requires metadata.None? || metadata == VersionMetadata(w)
    ensures FailedWith(k, w, r, state, mutated, id, late, metadata, None)
  {
    hide Registered, FailedWith, Ascii, VersionMetadata;
    CheckIsReportable(message);
    r := ReportFailure(k, w, state, mutated, id, check, Ascii(message), late, metadata, None);
  }

  lemma CheckIsReportable(s: string)
    requires s != ""
    ensures Reportable(Ascii(s))
  {
    hide ValidUtf8;
    AsciiIsValid(s);
  }

  lemma PlainIsSafe(k: Contract, id: string, check: bytes, message: bytes)
    requires Registered(k) && id in k.registry
    ensures k.library.safe(NewDiagnostic(k, id, check, message))
  {
    hide Serves;
  }

  lemma MetadataIsValid(k: Contract, w: World)
    ensures ValidMetadata(k, VersionMetadata(w))
  {
    hide ExactVersion;
  }

  lemma LateWarningsAreValid(k: Contract, late: bool)
    requires Registered(k)
    ensures forall d :: d in LateWarnings(k, late) ==> d.severity.Warning? && ValidDiagnostic(k, d)
  {
    hide ExactVersion, Coherent, KnowsErrors, Ascii, Reportable;
    CheckIsReportable("npm.publish.readback");
    CheckIsReportable("npm reported E422 but registry read-back observed a committed publication");
  }

  lemma EntriesAreValid(k: Contract, w: World, id: string, check: bytes, message: bytes, late: bool,
                        metadata: Option<Metadata>)
    requires Registered(k) && id in k.registry && Reportable(check) && Reportable(message)
    requires metadata.None? || metadata == VersionMetadata(w)
    ensures ValidMetadata(k, metadata)
    ensures var entry, extra := FailureEntry(k, id, check, message, metadata), LateWarnings(k, late);
            && entry.id == id && entry.severity == k.registry[id].severity
            && (forall d :: d in extra ==> d.severity.Warning?)
            && (forall d :: d in [entry] + extra ==> ValidDiagnostic(k, d))
  {
    hide ExactVersion, Coherent, KnowsErrors, LateWarnings, Reportable;
    LateWarningsAreValid(k, late);
    var entry, extra := FailureEntry(k, id, check, message, metadata), LateWarnings(k, late);
    assert forall d :: d in [entry] + extra <==> d == entry || d in extra;
  }

  lemma PrimaryOfFailure(k: Contract, entry: Diagnostic, extra: seq<Diagnostic>, r: Report)
    requires Valid(k, r) && multiset(r.diagnostics) == multiset([entry] + extra)
    requires forall d :: d in extra ==> d.severity.Warning?
    ensures r.primary == Some(entry.id) <==> entry.severity.Error?
    ensures entry.severity.Warning? ==> r.primary.None? && r.result == Pass
  {
    SameMembers(r.diagnostics, [entry] + extra);
    assert entry in [entry] + extra;
    assert forall d :: d in [entry] + extra <==> d == entry || d in extra;
    if entry.severity.Error? {
      ErrorAmongWarningsIsPrimary(k, entry, extra, r);
    }
  }

  // ---- The run.

  function EntryRun(w: World): Run
    requires w.prepared.Some?
  {
    Run(w.prepared.value, false, false, w.entryStart)
  }

  /** The code npm reported when it failed; "" when it succeeded or never started. */
  function Code(w: World): string {
    match w.publications(0)
    case Ran(output, true) => CodeOf(w.lower, output)
    case _ => ""
  }

  function ReadRun(w: World): Run
    requires w.prepared.Some?
  {
    Run(w.prepared.value, true, Code(w) == "e422", w.readStart)
  }

  /** The version npm reported, when it is an exact one. */
  function ReportedVersion(w: World): Option<string> {
    if w.npmVersion.Reported? && ExactVersion(w.npmVersion.version) then Some(w.npmVersion.version) else None
  }

  /** Reports mention the npm version as soon as it is known. */
  function VersionMetadata(w: World): Option<Metadata> {
    if ReportedVersion(w).Some? then Some(Metadata(None, ReportedVersion(w))) else None
  }

  /** npm is the pinned one. */
  predicate VersionFine(w: World) {
    ReportedVersion(w).Some? && w.pin.Pinned? && w.pin.version == ReportedVersion(w).value
  }

  const OBSERVE_INTRO := Ascii("observe npm version before publish: ")
  const PIN_INTRO := Ascii("load publish npm pin: ")

  /** The foreign error behind a failed version check, if there is one: running npm, or loading the pin. */
  function VersionCause(w: World): Option<Cause> {
    if w.npmVersion.VersionFailed? then Some(Cause(w.npmVersion.cause.id, OBSERVE_INTRO + w.npmVersion.cause.text))
    else if ReportedVersion(w).Some? && w.pin.NoPin? then Some(Cause(w.pin.cause.id, PIN_INTRO + w.pin.cause.text))
    else None
  }

  /** The text of that error. */
  function VersionText(w: World): Option<bytes> {
    if VersionCause(w).Some? then Some(VersionCause(w).value.text) else None
  }

  /** The ID of the failure when npm is not the pinned one: the one the foreign error carries, if it is registered. */
  function VersionID(k: Contract, w: World): string {
    if VersionCause(w).Some? then IdOr(k, VersionCause(w).value.id, VERSION_MISMATCH)
    else if ReportedVersion(w).None? then VERSION_MISMATCH
    else PIN_MISMATCH
  }

  /** Entry revalidation ended without a reason to stop. */
  ghost predicate PassesEntry(w: World) {
    && w.prepared.Some?
    && exists n: nat, c :: Ends(EntryRun(w), w.entryPolls, n, c) && c.state in {Committed, Absent} && !c.packageAbsent
  }

  /** Entry revalidation ended with a package that exists and a version that does not, and npm is the pinned one. */
  ghost predicate ClearedToPublish(w: World) {
    && w.prepared.Some? && VersionFine(w)
    && exists n: nat, c :: Ends(EntryRun(w), w.entryPolls, n, c) && c.state == Absent && !c.packageAbsent
  }

  /** The rounds of the environment are used up before polling has ended. */
  ghost predicate StillPolling(w: World) {
    && w.prepared.Some?
    && (|| Undecided(EntryRun(w), w.entryPolls)
        || (ClearedToPublish(w) && DefinitiveError(Code(w)).None? && Undecided(ReadRun(w), w.readPolls)))
  }

  /** Why a run failed before npm was asked to publish. */
  ghost predicate FailedAtEntry(k: Contract, w: World, r: Result, c: Classified)
    requires Registered(k)
  {
    || (c.error.Some? && FailedWith(k, w, r, Indeterminate, false, METADATA_REQUIRED, false, None, c.error))
    || (c.packageAbsent && FailedWith(k, w, r, Absent, false, INITIAL_PUBLICATION, false, None, None))
    || (c.state == Foreign && FailedWith(k, w, r, Foreign, false, ALREADY_PUBLISHED, false, None, None))
    || (&& c.state in {Committed, Absent} && !c.packageAbsent && !VersionFine(w)
        && FailedWith(k, w, r, c.state, false, VersionID(k, w), false, VersionMetadata(w), VersionText(w)))
  }

  /** Why a run failed after the mutation, given how read-back ended. */
  ghost predicate FailedAtReadback(k: Contract, w: World, r: Result, c: Classified)
    requires Registered(k)
  {
    var late, known := c.committedAfterRejection, VersionMetadata(w);
    || (c.state == Absent && FailedWith(k, w, r, Absent, true, REJECTED, false, known, None))
    || (c.error.Some? && FailedWith(k, w, r, Indeterminate, true, LINKAGE_MISMATCH, late, known, None))
    || (c.state == Foreign && FailedWith(k, w, r, Foreign, true, LINKAGE_MISMATCH, late, known, None))
  }

  /** Every answer of `Publish` with its reason. */
  ghost predicate Explained(k: Contract, w: World, r: Result)
    requires Registered(k)
  {
    if w.prepared.None? then
      FailedWith(k, w, r, Indeterminate, false, IdOr(k, w.entryError.id, BUNDLE_MISMATCH), false, None,
                 Some(w.entryError.text))
    else
      || (exists n: nat, c ::
            && Ends(EntryRun(w), w.entryPolls, n, c)
            && (|| FailedAtEntry(k, w, r, c)
                || (c.state == Committed && VersionFine(w) && SucceededWith(k, w, r, false, false))))
      || (&& ClearedToPublish(w) && DefinitiveError(Code(w)).Some?
          && FailedWith(k, w, r, Absent, true, DefinitiveError(Code(w)).value, false, VersionMetadata(w), None))
      || (&& ClearedToPublish(w) && DefinitiveError(Code(w)).None?
          && exists n: nat, c ::
               && Ends(ReadRun(w), w.readPolls, n, c)
               && (|| FailedAtReadback(k, w, r, c)
                   || (c.state == Committed && SucceededWith(k, w, r, true, c.committedAfterRejection))))
  }

  // ---- What is asked of the environment.

  /** Publication happens at most once, directly after a version check that directly follows a clean observation. */
  ghost predicate PublishesOnceCleanly(trace: seq<Event>) {
    && (forall i, j :: 0 <= i < j < |trace| && trace[i] == Published ==> trace[j] != Published)
    && (forall i :: 0 <= i < |trace| && trace[i] == Published ==>
          && i >= 2 && trace[i - 1] == VersionChecked
          && trace[i - 2].Observed? && CleanlyUnpublished(trace[i - 2].observation))
  }

  ghost function EntryEvents(w: World): seq<Event>
    requires w.prepared.Some?
  {
    ObservedEvents(w.entryPolls[..Rounds(EntryRun(w), w.entryPolls)])
  }

  /** The events of a run that got as far as the version check, npm, and read-back. */
  ghost function EventsOf(entry: seq<Event>, started: bool, read: seq<Event>): seq<Event> {
    entry + [VersionChecked] + (if started then [Published] else []) + read
  }

  /** Everything a run asks, in order. */
  ghost function Story(w: World): seq<Event> {
    if w.prepared.None? then []
    else if !PassesEntry(w) then EntryEvents(w)
    else if !ClearedToPublish(w) then EventsOf(EntryEvents(w), false, [])
    else
      EventsOf(EntryEvents(w), w.publications(0).Ran?,
               if DefinitiveError(Code(w)).Some? then []
               else ObservedEvents(w.readPolls[..Rounds(ReadRun(w), w.readPolls)]))
  }

  /** The last observation of the run. */
  function LastObserved(trace: seq<Event>): Option<Observation> {
    if trace == [] then None
    else if Last(trace).Observed? then Some(Last(trace).observation)
    else LastObserved(Init(trace))
  }

  lemma {:induction false} LastObservedOf(before: seq<Event>, polls: seq<Poll>)
    requires polls != []
    ensures LastObserved(before + ObservedEvents(polls)) == Some(Last(polls).observation)
  {
    assert Last(before + ObservedEvents(polls)) == Observed(Last(polls).observation);
  }

  lemma VersionCheckObservesNothing(polls: seq<Poll>)
    requires polls != []
    ensures LastObserved(EventsOf(ObservedEvents(polls), false, [])) == Some(Last(polls).observation)
  {
    var events := ObservedEvents(polls);
    assert EventsOf(events, false, []) == events + [VersionChecked];
    assert Init(events + [VersionChecked]) == events;
    assert Last(events) == Observed(Last(polls).observation);
  }

  lemma PublishesOnce(entry: seq<Poll>, started: bool, read: seq<Poll>)
    requires started ==> entry != [] && CleanlyUnpublished(Last(entry).observation)
    ensures var trace := EventsOf(ObservedEvents(entry), started, ObservedEvents(read));
            PublishesOnceCleanly(trace) && (Published in trace <==> started)
  {
    var trace := EventsOf(ObservedEvents(entry), started, ObservedEvents(read));
    assert forall i :: 0 <= i < |trace| && trace[i] == Published ==> started && i == |entry| + 1;
    if started {
      assert trace[|entry| + 1] == Published;
      assert trace[|entry|] == VersionChecked && trace[|entry| - 1] == Observed(Last(entry).observation);
    }
  }

  lemma NothingPublished(entry: seq<Poll>)
    ensures PublishesOnceCleanly(ObservedEvents(entry)) && Published !in ObservedEvents(entry)
  {
  }

  /** Whatever the world answers, a run publishes at most once, and exactly when it is cleared and npm starts. */
  lemma StoryPublishesOnce(w: World)
    ensures PublishesOnceCleanly(Story(w))
    ensures Published in Story(w) <==> ClearedToPublish(w) && w.publications(0).Ran?
  {
    hide PublishesOnceCleanly, CleanlyUnpublished, Ends, EventsOf, CodeOf, VersionFine;
    NothingPublished([]);
    assert ObservedEvents([]) == [];
    if w.prepared.Some? {
      var entry := w.entryPolls[..Rounds(EntryRun(w), w.entryPolls)];
      NothingPublished(entry);
      PublishesOnce(entry, false, []);
      if ClearedToPublish(w) {
        var n: nat, c :| Ends(EntryRun(w), w.entryPolls, n, c) && c.state == Absent && !c.packageAbsent;
        assert PassesEntry(w);
        EndsInRange(EntryRun(w), w.entryPolls, n, c);
        RoundsOfEnding(EntryRun(w), w.entryPolls, n, c);
        AbsentBeforeMutation(EntryRun(w), w.entryPolls, n, c);
        PublishesOnce(entry, w.publications(0).Ran?, []);
        PublishesOnce(entry, w.publications(0).Ran?, w.readPolls[..Rounds(ReadRun(w), w.readPolls)]);
      }
    }
  }

  /** The last observation of a successful run shows this run's artifact and a qualifying attestation. */
  ghost predicate EndsOnOurs(w: World, trace: seq<Event>) {
    && w.prepared.Some? && LastObserved(trace).Some?
    && ShowsOurPublication(w.prepared.value, LastObserved(trace).value)
  }

  /** What the entry phase decided settles every question about it. */
  lemma EntryEnding(w: World, n: nat, c: Classified)
    requires w.prepared.Some? && Ends(EntryRun(w), w.entryPolls, n, c)
    ensures !Undecided(EntryRun(w), w.entryPolls) && Rounds(EntryRun(w), w.entryPolls) == n + 1
    ensures PassesEntry(w) <==> c.state in {Committed, Absent} && !c.packageAbsent
    ensures ClearedToPublish(w) <==> VersionFine(w) && c.state == Absent && !c.packageAbsent
  {
    hide Ends, VersionFine;
    RoundsOfEnding(EntryRun(w), w.entryPolls, n, c);
    EndsOnce(EntryRun(w), w.entryPolls, n, c, n, c);
    forall n': nat, c' | Ends(EntryRun(w), w.entryPolls, n', c')
      ensures c' == c
    {
      EndsOnce(EntryRun(w), w.entryPolls, n, c, n', c');
    }
  }

  lemma EntryUndecided(w: World)
    requires w.prepared.Some? && Undecided(EntryRun(w), w.entryPolls)
    ensures !PassesEntry(w) && !ClearedToPublish(w)
  {
  }

  /** Runs until an answer, or until the given rounds of the environment are used up. */
  method Publish(k: Contract, env: Environment) returns (result: Option<Result>)
    requires Registered(k) && env.world.runInvocation != Some("") && env.Fresh()
    modifies env
    ensures env.trace == Story(env.world) && EvenSleeps(env.sleeps)
    ensures PublishesOnceCleanly(env.trace)
    ensures Published in env.trace <==> ClearedToPublish(env.world) && env.world.publications(0).Ran?
    ensures result.None? <==> StillPolling(env.world)
    ensures result.Some? ==> Explained(k, env.world, result.value)
    ensures result.Some? ==> (Mutated(result.value) <==> ClearedToPublish(env.world))
    ensures result.Some? && result.value.Success? ==> EndsOnOurs(env.world, env.trace)
  {
    hide Registered, GoodReport, Ends, Verdict, ShowsOurPublication, CleanlyUnpublished, PublishesOnceCleanly, Answer;
    hide EventsOf, VersionFine, VersionMetadata, Undecided, ClearedToPublish, PassesEntry, DefinitiveError, CodeOf;
    var w := env.world;
    StoryPublishesOnce(w);
    if w.prepared.None? {
      var id := IdOr(k, w.entryError.id, BUNDLE_MISMATCH);
      KnownIds(k);
      NeverCleared(w);
      var r := ReportFailure(k, w, Indeterminate, false, id, "npm.publish.entry", w.entryError.text, false, None,
                             Some(w.entryError.text));
      return Some(r);
    }
    var entry, used := Classify(env, EntryRun(w), w.entryPolls);
    NothingAdded(ObservedEvents(w.entryPolls[..used]));
    if entry.None? {
      EntryUndecided(w);
      return None;
    }
    result := ConcludeEntry(k, env, used, entry.value);
  }

  lemma NeverCleared(w: World)
    requires w.prepared.None?
    ensures !ClearedToPublish(w)
  {
  }

  lemma KnownIds(k: Contract)
    requires Registered(k)
    ensures ALREADY_PUBLISHED in k.registry && BUNDLE_MISMATCH in k.registry && METADATA_REQUIRED in k.registry
    ensures REJECTED in k.registry && LINKAGE_MISMATCH in k.registry && INITIAL_PUBLICATION in k.registry
    ensures VERSION_MISMATCH in k.registry && PIN_MISMATCH in k.registry
    ensures PERMISSION_DENIED in k.registry && PUBLISHER_MISMATCH in k.registry
  {
    hide Coherent, ExactVersion;
    assert forall id :: id in ERROR_IDS ==> IsErrorID(id);
  }

  lemma DefinitiveIsKnown(k: Contract, code: string)
    requires Registered(k) && DefinitiveError(code).Some?
    ensures DefinitiveError(code).value in k.registry
  {
    hide Registered;
    KnownIds(k);
  }

  /** The part of `Publish` after entry revalidation has ended with `c`. */
  method ConcludeEntry(k: Contract, env: Environment, ghost used: nat, c: Classified) returns (result: Option<Result>)
    requires Registered(k) && env.world.runInvocation != Some("") && env.world.prepared.Some?
    requires 0 < used <= |env.world.entryPolls| && Ends(EntryRun(env.world), env.world.entryPolls, used - 1, c)
    requires env.requests == 0 && env.trace == ObservedEvents(env.world.entryPolls[..used])
    requires EvenSleeps(env.sleeps)
    modifies env
    ensures env.trace == Story(env.world) && EvenSleeps(env.sleeps)
    ensures result.None? <==> StillPolling(env.world)
    ensures result.Some? ==> Explained(k, env.world, result.value)
    ensures result.Some? ==> (Mutated(result.value) <==> ClearedToPublish(env.world))
    ensures result.Some? && result.value.Success? ==> EndsOnOurs(env.world, env.trace)
  {
    hide Registered, GoodReport, Ends, Verdict, ShowsOurPublication, Answer, ReportedVersion;
    hide VersionFine, VersionMetadata, Undecided, ClearedToPublish, PassesEntry, DefinitiveError, CodeOf;
    var w := env.world;
    KnownIds(k);
    EntryEnding(w, used - 1, c);
    IndeterminateIffError(EntryRun(w), w.entryPolls, used - 1, c);
    AbsentBeforeMutation(EntryRun(w), w.entryPolls, used - 1, c);
    if c.error.Some? {
      var r := ReportFailure(k, w, Indeterminate, false, METADATA_REQUIRED,
                             "npm.publish.entry-revalidation", c.error.value, false, None, c.error);
      return Some(r);
    }
    if c.packageAbsent {
      var r := ReportFixed(k, w, Absent, false, INITIAL_PUBLICATION, "npm.publish.package-identity",
                           "npm package identity does not already exist", false, None);
      return Some(r);
    }
    match c.state {
      case Committed =>
      case Absent =>
      case Foreign =>
        var r := ReportFixed(k, w, Foreign, false, ALREADY_PUBLISHED,
                             "npm.publish.convergence", "registry version is foreign to this run", false, None);
        return Some(r);
      case Indeterminate =>
        assert false;
    }
    var problem, metadata := ValidateNpmVersion(k, env);
    if problem.Some? {
      var r := ReportFailure(k, w, c.state, false, problem.value.id, "npm.publish.toolchain", problem.value.text, false,
                             metadata, VersionText(w));
      return Some(r);
    }
    if c.state == Committed {
      var r := ReportSuccess(k, w, false, false, metadata);
      CommittedShowsOurs(EntryRun(w), w.entryPolls, used - 1, c);
      VersionCheckObservesNothing(w.entryPolls[..used]);
      return Some(r);
    }
    result := MutateAndReadBack(k, env, metadata);
  }

  /** The ID and the text a failed version check is reported with. */
  datatype Problem = Problem(id: string, text: bytes)

  /** `validateNPMVersion`, with the choice of the ID by its caller. */
  method ValidateNpmVersion(k: Contract, env: Environment)
    returns (problem: Option<Problem>, metadata: Option<Metadata>)
    requires Registered(k)
    modifies env`trace
    ensures problem.None? <==> VersionFine(env.world)
    ensures problem.Some? ==> problem.value.id == VersionID(k, env.world) && problem.value.id in k.registry
    ensures problem.Some? ==>
              if VersionText(env.world).Some? then problem.value.text == VersionText(env.world).value
              else Reportable(problem.value.text)
    ensures metadata == VersionMetadata(env.world)
    ensures env.trace == old(env.trace) + [VersionChecked]
  {
    hide Registered, Ascii, Reportable, ExactVersion;
    KnownIds(k);
    var version := env.NpmVersion();
    if version.VersionFailed? {
      return Some(Problem(IdOr(k, version.cause.id, VERSION_MISMATCH), OBSERVE_INTRO + version.cause.text)), None;
    }
    if !ExactVersion(version.version) {
      var text := "observe npm version before publish: npm did not report an exact three-part version";
      CheckIsReportable(text);
      return Some(Problem(VERSION_MISMATCH, Ascii(text))), None;
    }
    metadata := Some(Metadata(None, Some(version.version)));
    var pin := env.world.pin;
    if pin.NoPin? {
      return Some(Problem(IdOr(k, pin.cause.id, VERSION_MISMATCH), PIN_INTRO + pin.cause.text)), metadata;
    }
    if version.version != pin.version {
      var text := "npm version mismatch between the publish pin and the resolved npm";
      CheckIsReportable(text);
      return Some(Problem(PIN_MISMATCH, Ascii(text))), metadata;
    }
    problem := None;
  }

  /** The part of `Publish` from the npm invocation on. */
  method MutateAndReadBack(k: Contract, env: Environment, metadata: Option<Metadata>) returns (result: Option<Result>)
    requires Registered(k) && env.world.runInvocation != Some("") && metadata == VersionMetadata(env.world)
    requires ClearedToPublish(env.world) && env.requests == 0
    requires env.trace == EventsOf(EntryEvents(env.world), false, [])
    requires EvenSleeps(env.sleeps)
    modifies env
    ensures env.trace == Story(env.world) && EvenSleeps(env.sleeps)
    ensures result.None? <==>
            DefinitiveError(Code(env.world)).None? && Undecided(ReadRun(env.world), env.world.readPolls)
    ensures result.Some? ==> Explained(k, env.world, result.value) && Mutated(result.value)
    ensures result.Some? && result.value.Success? ==> EndsOnOurs(env.world, env.trace)
  {
    hide Registered, GoodReport, Ends, Verdict, ShowsOurPublication, CodeOf, Answer, VersionMetadata, EntryEvents;
    hide EventsOf, ClearedToPublish, Story, Undecided;
    var w := env.world;
    StoryOfCleared(w);
    ghost var entry := EntryEvents(w);
    var outcome := env.RunNpm();
    EventsAreSplit(entry, outcome.Ran?, []);
    var rejected := false;
    if outcome.NotStarted? || outcome.failed {
      var code := "";
      if outcome.Ran? {
        code := NpmErrorCode(w.lower, outcome.output);
      }
      var definitive := DefinitiveError(code);
      if definitive.Some? {
        DefinitiveIsKnown(k, code);
        var r := ReportFixed(k, w, Absent, true, definitive.value,
                             "npm.publish.mutation", "npm rejected publication before commit", false, metadata);
        return Some(r);
      }
      rejected := code == "e422";
    }
    result := ReadBack(k, env, rejected, metadata);
  }

  lemma StoryOfCleared(w: World)
    requires ClearedToPublish(w)
    ensures w.prepared.Some?
    ensures Story(w) == EventsOf(EntryEvents(w), w.publications(0).Ran?,
                                 if DefinitiveError(Code(w)).Some? then []
                                 else ObservedEvents(w.readPolls[..Rounds(ReadRun(w), w.readPolls)]))
  {
    assert PassesEntry(w);
  }

  /** The part of `Publish` after an npm invocation that settled nothing. */
  method ReadBack(k: Contract, env: Environment, rejected: bool, metadata: Option<Metadata>)
    returns (result: Option<Result>)
    requires Registered(k) && env.world.runInvocation != Some("") && metadata == VersionMetadata(env.world)
    requires ClearedToPublish(env.world) && DefinitiveError(Code(env.world)).None?
    requires rejected == (Code(env.world) == "e422")
    requires env.trace == EventsOf(EntryEvents(env.world), env.world.publications(0).Ran?, [])
    requires EvenSleeps(env.sleeps)
    modifies env
    ensures env.trace == Story(env.world) && EvenSleeps(env.sleeps)
    ensures result.None? <==> Undecided(ReadRun(env.world), env.world.readPolls)
    ensures result.Some? ==> Explained(k, env.world, result.value) && Mutated(result.value)
    ensures result.Some? && result.value.Success? ==> EndsOnOurs(env.world, env.trace)
  {
    hide Registered, GoodReport, Ends, Verdict, ShowsOurPublication, CodeOf, Answer, VersionMetadata, EntryEvents;
    hide EventsOf, ClearedToPublish, Story, DefinitiveError, Undecided;
    var w := env.world;
    StoryOfCleared(w);
    ghost var before := env.trace;
    var readback, read := Classify(env, Run(w.prepared.value, true, rejected, w.readStart), w.readPolls);
    EventsAreSplit(EntryEvents(w), w.publications(0).Ran?, ObservedEvents(w.readPolls[..read]));
    if readback.None? {
      return None;
    }
    EndsOnce(ReadRun(w), w.readPolls, read - 1, readback.value, read - 1, readback.value);
    var r := ConcludeReadback(k, w, read - 1, readback.value, rejected, metadata);
    if readback.value.state == Committed {
      CommittedShowsOurs(ReadRun(w), w.readPolls, read - 1, readback.value);
    }
    LastObservedOf(before, w.readPolls[..read]);
    result := Some(r);
  }

  lemma EventsAreSplit(entry: seq<Event>, started: bool, read: seq<Event>)
    ensures EventsOf(entry, started, read) == EventsOf(entry, false, []) + (if started then [Published] else []) + read
    ensures EventsOf(entry, false, []) + (if started then [Published] else []) == EventsOf(entry, started, [])
  {
  }

  lemma ReadbackIds(k: Contract)
    requires Registered(k)
    ensures REJECTED in k.registry && LINKAGE_MISMATCH in k.registry
  {
    hide Registered;
    KnownIds(k);
  }

  /** How `Publish` answers once read-back has ended with `c`. */
  method ConcludeReadback(k: Contract, w: World, ghost n: nat, c: Classified, rejected: bool,
                          metadata: Option<Metadata>) returns (r: Result)
    requires Registered(k) && w.runInvocation != Some("") && w.prepared.Some? && metadata == VersionMetadata(w)
    requires rejected == (Code(w) == "e422") && Ends(ReadRun(w), w.readPolls, n, c)
    ensures Mutated(r) && (r.Success? <==> c.state == Committed)
    ensures || FailedAtReadback(k, w, r, c)
            || (c.state == Committed && SucceededWith(k, w, r, true, c.committedAfterRejection))
  {
    hide Registered, GoodReport, Ends, Verdict, CodeOf, VersionMetadata;
    hide ReportsFailure, Ascii;
    ReadbackIds(k);
    IndeterminateIffError(ReadRun(w), w.readPolls, n, c);
    AbsentNeedsRejection(ReadRun(w), w.readPolls, n, c);
    if rejected && c.state == Absent {
      r := ReportFixed(k, w, Absent, true, REJECTED,
                       "npm.publish.readback", "npm rejected the publication as unprocessable", false, metadata);
      return;
    }
    if c.error.Some? || c.state == Indeterminate {
      r := ReportFixed(k, w, Indeterminate, true, LINKAGE_MISMATCH, "npm.publish.readback",
                       "publication outcome is indeterminate", c.committedAfterRejection, metadata);
      return;
    }
    if c.state == Foreign {
      r := ReportFixed(k, w, Foreign, true, LINKAGE_MISMATCH, "npm.publish.readback",
                       "published registry evidence conflicts with the verified handoff", c.committedAfterRejection,
                       metadata);
      return;
    }
    if c.state != Committed {
      assert false;
    }
    r := ReportSuccess(k, w, true, c.committedAfterRejection, metadata);
  }

  // ---- Consequences for every answered run.

  /** On clocks that advance by the interval during each sleep, 21 rounds a phase answer every run. */
  lemma SteadyRunsAreAnswered(w: World)
    requires w.prepared.Some? ==>
               && Steady(EntryRun(w), w.entryPolls) && |w.entryPolls| >= 21
               && Steady(ReadRun(w), w.readPolls) && |w.readPolls| >= 21
    ensures !StillPolling(w)
  {
    hide Ends, Steady, CodeOf;
    if w.prepared.Some? {
      EndsWithin21(EntryRun(w), w.entryPolls);
      EndsWithin21(ReadRun(w), w.readPolls);
      var n: nat, c :| n <= 20 && Ends(EntryRun(w), w.entryPolls, n, c);
      var m: nat, d :| m <= 20 && Ends(ReadRun(w), w.readPolls, m, d);
      EndsOnce(EntryRun(w), w.entryPolls, n, c, n, c);
      EndsOnce(ReadRun(w), w.readPolls, m, d, m, d);
    }
  }

  /** What a caller sees of an answer besides the contents of the report. */
  datatype Gist = Gist(succeeded: bool, mutated: bool, state: State, error: string) | NoReport

  function GistOf(r: Result): Gist {
    match r
    case Success(mutated, _) => Gist(true, mutated, Committed, "")
    case Failure(state, mutated, error, _) => Gist(false, mutated, state, error)
    case Unreported => NoReport
  }

  /** The gist of a failure that carries a foreign text. */
  function Carrying(carried: Option<bytes>, g: Gist): Gist {
    if carried.Some? && !Reportable(carried.value) then NoReport else g
  }

  function EntryGist(k: Contract, w: World, c: Classified): Gist {
    if c.error.Some? then Carrying(c.error, Gist(false, false, Indeterminate, METADATA_REQUIRED))
    else if c.packageAbsent then Gist(false, false, Absent, INITIAL_PUBLICATION)
    else if c.state == Foreign then Gist(false, false, Foreign, ALREADY_PUBLISHED)
    else if !VersionFine(w) then Carrying(VersionText(w), Gist(false, false, c.state, VersionID(k, w)))
    else Gist(true, false, Committed, "")
  }

  function ReadGist(c: Classified): Gist {
    if c.state == Absent then Gist(false, true, Absent, REJECTED)
    else if c.error.Some? then Gist(false, true, Indeterminate, LINKAGE_MISMATCH)
    else if c.state == Foreign then Gist(false, true, Foreign, LINKAGE_MISMATCH)
    else Gist(true, true, Committed, "")
  }

  /** A run that is not cleared to publish answers by how entry revalidation ended and by the version check. */
  lemma AnsweredAtEntry(k: Contract, w: World, r: Result, n: nat, c: Classified)
    requires Registered(k) && Explained(k, w, r) && w.prepared.Some?
    requires Ends(EntryRun(w), w.entryPolls, n, c) && !ClearedToPublish(w)
    ensures GistOf(r) == EntryGist(k, w, c)
  {
    hide Registered, GoodReport, Ends, Verdict, ClearedToPublish, VersionFine, VersionMetadata, VersionText, VersionID;
    hide ReportsFailure, Reportable, Ascii;
    var n': nat, c' :|
      && Ends(EntryRun(w), w.entryPolls, n', c')
      && (|| FailedAtEntry(k, w, r, c')
          || (c'.state == Committed && VersionFine(w) && SucceededWith(k, w, r, false, false)));
    EndsOnce(EntryRun(w), w.entryPolls, n, c, n', c');
    IndeterminateIffError(EntryRun(w), w.entryPolls, n, c);
    AbsentBeforeMutation(EntryRun(w), w.entryPolls, n, c);
  }

  /** A cleared run answers by npm's code when that is definitive, and otherwise by how read-back ended. */
  lemma AnsweredAfterMutation(k: Contract, w: World, r: Result)
    requires Registered(k) && Explained(k, w, r) && ClearedToPublish(w)
    ensures DefinitiveError(Code(w)).Some? ==> GistOf(r) == Gist(false, true, Absent, DefinitiveError(Code(w)).value)
    ensures DefinitiveError(Code(w)).None? ==>
              exists n: nat, c :: Ends(ReadRun(w), w.readPolls, n, c) && GistOf(r) == ReadGist(c)
  {
    hide Registered, GoodReport, Ends, Verdict, VersionFine, VersionMetadata, CodeOf, DefinitiveError, ReportsFailure;
    hide Reportable, VersionText, VersionID, Ascii;
    forall n: nat, c | Ends(EntryRun(w), w.entryPolls, n, c)
      ensures VersionFine(w) && c.state == Absent && !c.packageAbsent && c.error.None?
    {
      EntryEnding(w, n, c);
      IndeterminateIffError(EntryRun(w), w.entryPolls, n, c);
    }
    if DefinitiveError(Code(w)).None? {
      var n: nat, c :|
        && Ends(ReadRun(w), w.readPolls, n, c)
        && (|| FailedAtReadback(k, w, r, c)
            || (c.state == Committed && SucceededWith(k, w, r, true, c.committedAfterRejection)));
      IndeterminateIffError(ReadRun(w), w.readPolls, n, c);
    }
  }

  /** What the environment answers decides the outcome: two answers to the same world say the same. */
  lemma AnswerIsDecided(k: Contract, w: World, r: Result, r': Result)
    requires Registered(k) && Explained(k, w, r) && Explained(k, w, r')
    ensures GistOf(r) == GistOf(r')
  {
    hide Registered, GoodReport, Ends, EntryGist, ReadGist, CodeOf, DefinitiveError, VersionFine, VersionMetadata;
    hide VersionText, VersionID, ReportsFailure, Reportable, Ascii;
    if w.prepared.Some? && ClearedToPublish(w) {
      hide Explained, ClearedToPublish;
      AnsweredAfterMutation(k, w, r);
      AnsweredAfterMutation(k, w, r');
      if DefinitiveError(Code(w)).None? {
        var n: nat, c :| Ends(ReadRun(w), w.readPolls, n, c) && GistOf(r) == ReadGist(c);
        var n': nat, c' :| Ends(ReadRun(w), w.readPolls, n', c') && GistOf(r') == ReadGist(c');
        EndsOnce(ReadRun(w), w.readPolls, n, c, n', c');
      }
    } else if w.prepared.Some? {
      var n, c := EntryEnded(k, w, r);
      hide Explained, ClearedToPublish;
      AnsweredAtEntry(k, w, r, n, c);
      AnsweredAtEntry(k, w, r', n, c);
    }
  }

  lemma EntryEnded(k: Contract, w: World, r: Result) returns (n: nat, c: Classified)
    requires Registered(k) && Explained(k, w, r) && w.prepared.Some?
    ensures Ends(EntryRun(w), w.entryPolls, n, c)
  {
    hide Registered, FailedAtEntry, FailedAtReadback, FailedWith, SucceededWith, Ends, CodeOf, Ascii, VersionFine;
    n, c :| Ends(EntryRun(w), w.entryPolls, n, c);
  }

  // ---- The answers by name.

  lemma {:induction false} CodeOfFirstLine(lower: char -> char, lines: seq<string>, i: nat, code: string)
    requires FirstCodeLine(lower, lines, i, code)
    ensures FirstCode(lower, lines) == code
    decreases i
  {
    hide LineFields, IsCodeLine;
    if i > 0 {
      assert forall j :: 0 <= j < |lines| - 1 ==> lines[1..][j] == lines[j + 1];
      CodeOfFirstLine(lower, lines[1..], i - 1, code);
    }
  }

  lemma {:induction false} CodeWithoutLine(lower: char -> char, lines: seq<string>)
    requires forall j :: 0 <= j < |lines| ==> !IsCodeLine(LineFields(lower, lines[j]))
    ensures FirstCode(lower, lines) == ""
  {
    hide LineFields, IsCodeLine;
    if lines != [] {
      CodeWithoutLine(lower, lines[1..]);
    }
  }

  /** Read-back settles what a run answers. */
  ghost predicate AnsweredByReadback(w: World, r: Result)
    requires w.prepared.Some?
  {
    exists n: nat, c :: Ends(ReadRun(w), w.readPolls, n, c) && GistOf(r) == ReadGist(c)
  }

  /** When npm fails with a code, the code decides: two of them are a missing permission, two a wrong publisher, and any
      other leaves the answer to read-back, which is a rejected one exactly for `e422`. */
  lemma NpmCodeDecides(k: Contract, w: World, r: Result, output: string, i: nat, code: string)
    requires Registered(k) && Explained(k, w, r) && ClearedToPublish(w)
    requires w.publications(0) == Ran(output, true) && FirstCodeLine(w.lower, Split(output, '\n'), i, code)
    ensures code == "e401" || code == "e403" ==>
              GistOf(r) == Gist(false, true, Absent, "windlass.verify.error.mutation-permission-denied")
    ensures code == "eneedauth" || code == "e404" ==>
              GistOf(r) == Gist(false, true, Absent, "windlass.verify.error.trusted-publisher-mismatch")
    ensures code != "e401" && code != "e403" && code != "eneedauth" && code != "e404" ==> AnsweredByReadback(w, r)
    ensures ReadRun(w).e422 <==> code == "e422"
  {
    hide Explained, Registered, ClearedToPublish, Ends, FirstCodeLine, Split, FirstCode;
    NpmSettles(w);
    CodeOfFirstLine(w.lower, Split(output, '\n'), i, code);
    AnsweredAfterMutation(k, w, r);
  }

  lemma NpmSettles(w: World)
    requires ClearedToPublish(w)
    ensures w.prepared.Some?
  {
  }

  /** Without a code line, without a failure, or when npm was not started, read-back decides, and nothing counts as
      rejected. */
  lemma NoCodeLeavesReadback(k: Contract, w: World, r: Result)
    requires Registered(k) && Explained(k, w, r) && ClearedToPublish(w)
    requires match w.publications(0)
             case NotStarted => true
             case Ran(output, failed) =>
               !failed || forall line :: line in Split(output, '\n') ==> !IsCodeLine(LineFields(w.lower, line))
    ensures AnsweredByReadback(w, r) && !ReadRun(w).e422
  {
    hide Explained, Registered, ClearedToPublish, Ends, IsCodeLine, LineFields, Split, FirstCode;
    NpmSettles(w);
    if w.publications(0).Ran? && w.publications(0).failed {
      CodeWithoutLine(w.lower, Split(w.publications(0).output, '\n'));
    }
    AnsweredAfterMutation(k, w, r);
  }

  /** What a run answers when read-back decides. */
  lemma ReadbackAnswersByName(k: Contract, w: World, r: Result, n: nat, c: Classified)
    requires Registered(k) && Explained(k, w, r) && ClearedToPublish(w) && DefinitiveError(Code(w)).None?
    requires w.prepared.Some? && Ends(ReadRun(w), w.readPolls, n, c)
    ensures c.state == Absent ==>
              GistOf(r) == Gist(false, true, Absent, "windlass.verify.error.publish-rejected-unprocessable")
    ensures c.state == Foreign ==>
              GistOf(r) == Gist(false, true, Foreign, "windlass.verify.error.registry-linkage-mismatch")
    ensures c.state == Indeterminate ==>
              GistOf(r) == Gist(false, true, Indeterminate, "windlass.verify.error.registry-linkage-mismatch")
    ensures c.state == Committed ==> GistOf(r) == Gist(true, true, Committed, "")
  {
    hide Explained, Registered, ClearedToPublish, Ends, CodeOf, DefinitiveError;
    NpmSettles(w);
    AnsweredAfterMutation(k, w, r);
    var n': nat, c' :| Ends(ReadRun(w), w.readPolls, n', c') && GistOf(r) == ReadGist(c');
    EndsOnce(ReadRun(w), w.readPolls, n, c, n', c');
    IndeterminateIffError(ReadRun(w), w.readPolls, n, c);
  }

  /** What a run answers that is not cleared to publish. */
  lemma EntryAnswersByName(k: Contract, w: World, r: Result, n: nat, c: Classified)
    requires Registered(k) && Explained(k, w, r) && w.prepared.Some?
    requires Ends(EntryRun(w), w.entryPolls, n, c) && !ClearedToPublish(w)
    ensures c.packageAbsent ==>
              GistOf(r) == Gist(false, false, Absent, "windlass.verify.error.unsupported-initial-publication")
    ensures c.state == Foreign ==>
              GistOf(r) == Gist(false, false, Foreign, "windlass.verify.error.already-published-version")
    ensures c.error.Some? && Reportable(c.error.value) ==>
              GistOf(r) == Gist(false, false, Indeterminate,
                                "windlass.verify.error.prepublish-registry-metadata-required")
    ensures c.state == Committed && VersionFine(w) ==> GistOf(r) == Gist(true, false, Committed, "")
    ensures PassesEntry(w) && w.npmVersion.Reported? && !ExactVersion(w.npmVersion.version) ==>
              GistOf(r) == Gist(false, false, c.state, "windlass.verify.error.builder-version-mismatch")
    ensures PassesEntry(w) && w.npmVersion.Reported? && ExactVersion(w.npmVersion.version) && w.pin.Pinned?
            && w.pin.version != w.npmVersion.version ==>
              GistOf(r) == Gist(false, false, c.state, "windlass.verify.error.publish-npm-pin-mismatch")
  {
    hide Explained, Registered, Ends, Reportable, ExactVersion, Ascii;
    EntryEnding(w, n, c);
    hide ClearedToPublish, PassesEntry;
    AnsweredAtEntry(k, w, r, n, c);
    IndeterminateIffError(EntryRun(w), w.entryPolls, n, c);
    AbsentBeforeMutation(EntryRun(w), w.entryPolls, n, c);
  }

  // ---- When a failure is reported, and as what.

  /** The foreign error at which a run stops: what prevented it, a failed sleep of entry revalidation (or its exhausted
      budget), or what made the version check fail. */
  ghost predicate StopsAt(w: World, cause: Cause) {
    if w.prepared.None? then cause == w.entryError
    else
      exists n: nat, c ::
        && Ends(EntryRun(w), w.entryPolls, n, c)
        && (|| (c.error.Some? && cause == Cause(None, c.error.value))
            || (&& c.state in {Committed, Absent} && !c.packageAbsent && !VersionFine(w)
                && VersionCause(w) == Some(cause)))
  }

  ghost predicate NamesWarning(k: Contract, cause: Cause) {
    cause.id.Some? && cause.id.value in k.registry && k.registry[cause.id.value].severity.Warning?
  }

  /** A run stops at one foreign error at most, and what it then answers. */
  lemma AnsweredAtCause(k: Contract, w: World, r: Result, cause: Cause)
    requires Registered(k) && Explained(k, w, r) && StopsAt(w, cause)
    ensures !r.Success? && (r.Unreported? <==> !Reportable(cause.text))
    ensures r.Failure? && cause.id.Some? && cause.id.value in k.registry ==> r.error == cause.id.value
    ensures r.Failure? && !(cause.id.Some? && cause.id.value in k.registry) ==> r.error in ERROR_IDS
  {
    hide Registered, GoodReport, Ends, CodeOf, ReportsFailure, Reportable, Ascii, ExactVersion, DefinitiveError;
    if w.prepared.Some? {
      var n: nat, c :|
        && Ends(EntryRun(w), w.entryPolls, n, c)
        && (|| (c.error.Some? && cause == Cause(None, c.error.value))
            || (&& c.state in {Committed, Absent} && !c.packageAbsent && !VersionFine(w)
                && VersionCause(w) == Some(cause)));
      EntryEnding(w, n, c);
      IndeterminateIffError(EntryRun(w), w.entryPolls, n, c);
      hide Explained, ClearedToPublish, PassesEntry;
      AnsweredAtEntry(k, w, r, n, c);
      AbsentBeforeMutation(EntryRun(w), w.entryPolls, n, c);
    }
  }

  /** A run that stops at no foreign error is reported, and fails only with errors of its own. */
  lemma AnsweredWithoutCause(k: Contract, w: World, r: Result)
    requires Registered(k) && Explained(k, w, r) && forall cause :: !StopsAt(w, cause)
    ensures !r.Unreported? && (r.Failure? ==> r.error in ERROR_IDS)
  {
    hide Registered, GoodReport, Ends, CodeOf, ReportsFailure, Reportable, Ascii, ExactVersion;
    assert w.prepared.None? ==> StopsAt(w, w.entryError);
    if ClearedToPublish(w) {
      hide Explained, StopsAt;
      AnsweredAfterMutation(k, w, r);
    } else {
      var n, c := EntryEnded(k, w, r);
      hide Explained, ClearedToPublish;
      AnsweredAtEntry(k, w, r, n, c);
      assert c.error.Some? ==> StopsAt(w, Cause(None, c.error.value));
      IndeterminateIffError(EntryRun(w), w.entryPolls, n, c);
      assert c.state in {Committed, Absent} && !c.packageAbsent && !VersionFine(w) && VersionCause(w).Some? ==>
          StopsAt(w, VersionCause(w).value);
    }
  }

  /** A run ends without a report exactly when it stops at a foreign error whose text is empty or not UTF-8. */
  lemma UnreportedIff(k: Contract, w: World, r: Result)
    requires Registered(k) && Explained(k, w, r)
    ensures r.Unreported? <==> exists cause :: StopsAt(w, cause) && !Reportable(cause.text)
  {
    hide Explained, StopsAt, Reportable, Registered;
    if cause :| StopsAt(w, cause) {
      AnsweredAtCause(k, w, r, cause);
      forall other | StopsAt(w, other)
        ensures r.Unreported? <==> !Reportable(other.text)
      {
        AnsweredAtCause(k, w, r, other);
      }
    } else {
      AnsweredWithoutCause(k, w, r);
    }
  }

  lemma ChosenError(k: Contract, w: World, r: Result)
    requires Registered(k) && Explained(k, w, r) && r.Failure?
    ensures r.error in k.registry
    ensures r.report.primary == Some(r.error) <==> k.registry[r.error].severity.Error?
    ensures k.registry[r.error].severity.Warning? ==> r.report.primary.None? && r.report.result == Pass
  {
    hide Registered, GoodReport, Ends, Verdict, ClearedToPublish, VersionFine, VersionMetadata, CodeOf, Reportable;
    hide DefinitiveError, VersionText, VersionID, Ascii;
  }

  lemma ListedIsError(k: Contract, id: string)
    requires Registered(k) && id in ERROR_IDS
    ensures id in k.registry && k.registry[id].severity.Error?
  {
    hide Coherent, ExactVersion;
    assert IsErrorID(id);
  }

  /** Once a run is prepared, it fails with one of the listed errors or with the registered ID of a failed version
      check. */
  lemma ChosenErrorIsListedOrCarried(k: Contract, w: World, r: Result)
    requires Registered(k) && Explained(k, w, r) && r.Failure? && w.prepared.Some?
    ensures || r.error in ERROR_IDS
            || (VersionCause(w).Some? && VersionCause(w).value.id == Some(r.error) && r.error in k.registry)
  {
    hide Explained, Registered, Reportable, VersionCause, VersionFine, Ends;
    if cause :| StopsAt(w, cause) {
      AnsweredAtCause(k, w, r, cause);
    } else {
      AnsweredWithoutCause(k, w, r);
    }
  }

  /** A run that does not succeed reports its own error as primary, except exactly when it stops at a foreign error
      whose text cannot be reported, or which names a warning. */
  lemma FailureIsPrimaryIff(k: Contract, w: World, r: Result)
    requires Registered(k) && Explained(k, w, r) && !r.Success?
    ensures r.Failure? && r.report.primary == Some(r.error) <==>
            forall cause :: StopsAt(w, cause) ==> Reportable(cause.text) && !NamesWarning(k, cause)
    ensures forall cause :: StopsAt(w, cause) && Reportable(cause.text) && NamesWarning(k, cause) ==>
                              r.Failure? && r.report.primary.None? && r.report.result == Pass
  {
    hide Explained, StopsAt, Reportable, Registered;
    if r.Failure? {
      ChosenError(k, w, r);
    }
    if cause :| StopsAt(w, cause) {
      forall other | StopsAt(w, other)
        ensures r.Failure? && r.report.primary == Some(r.error) <==> Reportable(other.text) && !NamesWarning(k, other)
        ensures r.Unreported? <==> !Reportable(other.text)
        ensures r.Failure? && NamesWarning(k, other) ==> r.error == other.id.value
      {
        AnsweredAtCause(k, w, r, other);
        if r.Failure? && r.error in ERROR_IDS {
          ListedIsError(k, r.error);
        }
      }
    } else {
      AnsweredWithoutCause(k, w, r);
      ListedIsError(k, r.error);
    }
  }

  /** npm outside every trusted toolchain root: a version check that fails with a registered ID answers that ID. */
  lemma VersionFailureAnswersItsID(k: Contract, w: World, r: Result, id: string)
    requires Registered(k) && Explained(k, w, r) && PassesEntry(w)
    requires w.npmVersion.VersionFailed? && w.npmVersion.cause.id == Some(id) && id in k.registry
    requires ValidUtf8(w.npmVersion.cause.text)
    ensures r.Failure? && !r.mutated && r.error == id
  {
    hide Explained, Registered, Ends, Ascii, ValidUtf8;
    var n: nat, c :| Ends(EntryRun(w), w.entryPolls, n, c) && c.state in {Committed, Absent} && !c.packageAbsent;
    EntryEnding(w, n, c);
    IndeterminateIffError(EntryRun(w), w.entryPolls, n, c);
    AsciiThenBytes("observe npm version before publish: ", w.npmVersion.cause.text);
    AnsweredAtEntry(k, w, r, n, c);
  }

  /** npm prints a text that is not UTF-8 and fails: the run ends without a report. */
  lemma UnreadableVersionFailure(k: Contract, w: World, r: Result)
    requires Registered(k) && Explained(k, w, r) && PassesEntry(w)
    requires w.npmVersion.VersionFailed? && !ValidUtf8(w.npmVersion.cause.text)
    ensures r.Unreported?
  {
    hide Explained, Registered, Ends, Ascii, ValidUtf8;
    var n: nat, c :| Ends(EntryRun(w), w.entryPolls, n, c) && c.state in {Committed, Absent} && !c.packageAbsent;
    EntryEnding(w, n, c);
    IndeterminateIffError(EntryRun(w), w.entryPolls, n, c);
    AsciiThenBytes("observe npm version before publish: ", w.npmVersion.cause.text);
    AnsweredAtEntry(k, w, r, n, c);
  }

  /** A world in which preparing the run fails with the given error. */
  function Prevented(cause: Cause): World {
    World(None, cause, None, 0, [], Reported(""), Pinned(""), (_: nat) => NotStarted, c => c, 0, [])
  }

  /** An error that names the late-commit warning: the run fails with a report that passes and has no primary
      diagnostic. */
  method RunPreventedByWarning(k: Contract) returns (r: Result)
    requires Registered(k)
    ensures r.Failure? && r.error == COMMITTED_LATE && r.report.primary.None? && r.report.result == Pass
  {
    hide Explained, Coherent, KnowsErrors, ExactVersion, Ascii, Reportable;
    var cause := Cause(Some(COMMITTED_LATE), Ascii("stopped"));
    CheckIsReportable("stopped");
    var env := new Environment(Prevented(cause));
    var result := Publish(k, env);
    r := result.value;
    AnsweredAtCause(k, Prevented(cause), r, cause);
    ChosenError(k, Prevented(cause), r);
  }

  /** An error whose text is one byte that is not UTF-8: the run ends without a report. */
  method RunPreventedUnreadably(k: Contract) returns (r: Result)
    requires Registered(k)
    ensures r.Unreported?
  {
    hide Explained, Registered;
    var cause := Cause(None, [0xFF]);
    var env := new Environment(Prevented(cause));
    var result := Publish(k, env);
    r := result.value;
    AnsweredAtCause(k, Prevented(cause), r, cause);
  }

  /** Success without a mutation is only ever a retry of the same run. */
  lemma UnmutatedSuccessIsRetry(k: Contract, w: World, r: Result)
    requires Registered(k) && Explained(k, w, r) && r.Success? && !r.mutated
    ensures w.prepared.Some? && w.prepared.value.attempt.Some? && w.prepared.value.attempt.value > 1
  {
    hide GoodReport, Verdict, Ends;
    var n: nat, c :| Ends(EntryRun(w), w.entryPolls, n, c) && c.state == Committed;
    CommittedShowsOurs(EntryRun(w), w.entryPolls, n, c);
  }

  /** A successful mutation carries the late-commit warning exactly when npm had reported E422. */
  lemma MutatedSuccessWarnsIffRejected(k: Contract, w: World, r: Result)
    requires Registered(k) && Explained(k, w, r) && r.Success? && r.mutated
    ensures (exists d :: d in r.report.diagnostics && d.id == COMMITTED_LATE) <==> Code(w) == "e422"
  {
    hide Verdict, Ends, Registered, GoodReport, CodeOf, ClearedToPublish, DefinitiveError, VersionFine;
    var n: nat, c :| Ends(ReadRun(w), w.readPolls, n, c) && c.state == Committed &&
                     SucceededWith(k, w, r, true, c.committedAfterRejection);
    CommittedShowsOurs(ReadRun(w), w.readPolls, n, c);
    LateCommitFlag(ReadRun(w), w.readPolls, n, c);
    EndsInRange(ReadRun(w), w.readPolls, n, c);
    assert ShowsVersion(w.readPolls[n].observation);
    WarnsIffLate(k, w, r, c.committedAfterRejection);
  }

  lemma WarnsIffLate(k: Contract, w: World, r: Result, late: bool)
    requires Registered(k) && SucceededWith(k, w, r, true, late)
    ensures (exists d :: d in r.report.diagnostics && d.id == COMMITTED_LATE) <==> late
  {
    hide Valid, Registered;
    SameMembers(r.report.diagnostics, LateWarnings(k, late));
    assert late ==> LateWarnings(k, true)[0] in r.report.diagnostics;
  }

  lemma EndsInRange(run: Run, polls: seq<Poll>, n: nat, c: Classified)
    requires Ends(run, polls, n, c)
    ensures n < |polls|
  {
  }

  /** "Rejected as unprocessable" is reported after a mutation only when npm said E422 and no read-back observation
      of the run showed the version. */
  lemma RejectionMeansNeverSeen(k: Contract, w: World, r: Result)
    requires Registered(k) && Explained(k, w, r) && r.Failure? && r.mutated && r.error == REJECTED
    ensures Code(w) == "e422" && r.state == Absent
    ensures exists n: nat, c :: Ends(ReadRun(w), w.readPolls, n, c) &&
              forall j :: 0 <= j <= n ==> !ShowsVersion(w.readPolls[j].observation)
  {
    hide GoodReport, Verdict, Ends, CodeOf;
    var n: nat, c :| Ends(ReadRun(w), w.readPolls, n, c) && FailedAtReadback(k, w, r, c);
    EndsInRange(ReadRun(w), w.readPolls, n, c);
    AbsentAfterMutation(ReadRun(w), w.readPolls, n, c);
  }
}
