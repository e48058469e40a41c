# Verification models for slsa-builder

This project models the parts of slsa-builder that decide something over unbounded input — stream filters,
a publication protocol, parsers, version ranges and order-sensitive reports — and proves what they promise.
Run `dafny verify dfyconfig.toml` to check everything.

| file | models |
|---|---|
| `Text.dfy`, `Orders.dfy` | byte strings, splitting, string order and sorting shared by the other modules |
| `Utf8.dfy` | `unicode/utf8` decoding as the relay uses it (RFC 3629, sections 3 and 4) |
| `Redaction.dfy`, `Collection.dfy`, `Relay.dfy` | the streaming stderr relay: secret replacement, decoding, bounded line collection |
| `Exposure.dfy` | when a relayed line can, and when it cannot, hold a secret after all |
| `Environments.dfy`, `Observations.dfy`, `Convergence.dfy`, `Publication.dfy` | the npm publish protocol: what a run asks, judging an observation, polling, the whole run |
| `FailurePaths.dfy`, `FailureFamily.dfy`, `Recognizer.dfy` | the bounded recogniser of npm failure output and its summary |
| `FailureTemplates.dfy`, `FailureFacts.dfy`, `Phrases.dfy` | what the summary says, in terms of the lines npm printed and the texts of the templates |
| `StrictJson.dfy`, `JsonEscapes.dfy`, `JsonEquality.dfy`, `JsonText.dfy` | the strict JSON parser, its surrogate scan, value equality, and the three together on bytes |
| `JsonErrors.dfy` | which error a rejected document gets |
| `SemverRange.dfy`, `SemverText.dfy` | SemVer precedence, npm ranges as intervals, and matching a declaration with a version |
| `SemverMeaning.dfy` | what every spelling of a declaration means |
| `Diagnostics.dfy` | the diagnostic registry and the report built from diagnostics |
| `PolicyIntersection.dfy` | policy constraint sets and their narrowing intersection |
| `Workspace.dfy` | workspace patterns and the search for the workspace root |

## How the models are built

- Objects the source updates in place are classes: `Relay.StderrRelay`, `Recognizer.FailureRecognizer`,
  `StrictJson.Decoder`, `Diagnostics.RegistryBuilder`. Byte slices and lists they reassign are `seq` fields.
  Each streaming class keeps a ghost copy of everything written, and its validity ties the fields to a batch
  function of that copy; hence no result depends on how the stream was cut into writes.
- Loops are methods proved against a specification, and the properties are proved of the specification.
- A publication run asks an `Environments.Environment` for registry observations, npm's version and publications, and
  every such call is recorded in a trace. What the environment answers is a value, `World`; a theorem about all worlds
  is a theorem about all runs. A world gives finitely many polling rounds: `Publish` answers `None` exactly when they
  are used up before polling has ended (`Publication.StillPolling`), and on clocks that advance by the interval during
  each sleep 21 rounds a phase answer every run. Nothing else is assumed of the clock.
- The bundle verifier, base64, URL parsing, canonical JSON, Unicode lower-casing and the trimming of field names are
  parameters: arbitrary deterministic functions.

## Where code and documentation differ

- `internal/npmprofile/semver_range.go:27-29` says an unparseable union arm makes the whole declaration
  unmatchable. The code stops reading an arm at its first comparator that excludes the version (lines 315-320), so
  an unreadable comparator behind one is never noticed. `SemverText.DepartsFromDocumentedRule` says exactly when
  the two differ; `SemverText.UnreadableArmMatches` shows that the text `>2.0.0 y || 1.0.0` matches `1.0.0`.
- `internal/policy/intersection.go:54` calls the intersection monotonic. For a field no earlier source constrains,
  `Allows` is false for every value, and a first constraint makes it true for some.
  `PolicyIntersection.NarrowingShrinksConstrainedFields` says exactly for which fields it is monotonic;
  `PolicyIntersection.FirstConstraintAllowsMore` gives a baseline, a source and the value it newly allows.
- `docs/architecture/core-profile-contract.md:260-261` replaces every exact occurrence of a secret on the raw stream,
  before any other filtering. The first byte of each occurrence is indeed replaced (`Redaction.SecretStartIsHidden`),
  but that does not keep secrets out of the log: filtering can put one together again. `Exposure.RelayableIff` says
  exactly which plain lone secrets some input relays, those of two bytes or more and those that occur in the marker;
  `Exposure.FilteringReassemblesAb` relays `ab` from the bytes 61 01 62. Among streams the filter leaves alone, a marker
  next to kept bytes (`Exposure.MarkerCompletesSecret`) and U+FFFD (`Exposure.ReplacementReadsAsSecret`) can still
  complete a secret; `Exposure.RelayedLinesHoldNoSecret` says when neither does, and `Exposure.SurvivesIffExposable`
  exactly which lone secrets show after redaction.
- `docs/architecture/core-profile-contract.md:274` replaces each invalid UTF-8 byte sequence with U+FFFD. The code
  replaces each byte of such a sequence; `Utf8.ReplacedAlikeIffSingle` says exactly when that is the same.
- A failed publication carries a report whose primary diagnostic is its error (`internal/npmprofile/publish.go:101-106`),
  except exactly when the run stops at a foreign error whose text is empty or not UTF-8, or which carries the ID of a
  registered warning (`Publication.FailureIsPrimaryIff`). In the first case there is no report at all
  (`Publication.UnreportedIff`, `Publication.RunPreventedUnreadably`, and `Publication.UnreadableVersionFailure` for npm
  output); in the second the report of the failure passes (`Publication.RunPreventedByWarning`).
- `internal/npmprofile/publish.go:325` counts an observation as a clean absence when the packument was read without
  error, even if the attestation read failed or the package itself was missing; the lemmas say "error-free absence"
  in that sense.

## Model

| member | source | states |
|---|---|---|
| Utf8.FullRuneIsStable | internal/npmprofile/exec_boundary_relay.go:79-80 | a rune the streaming decoder considers decided decodes the same whatever bytes follow |
| Utf8.DecodeEncoded | internal/npmprofile/exec_boundary_relay.go:75-84 | decoding the UTF-8 encoding of any text gives the text back |
| Utf8.EncodeDecodedRune | internal/npmprofile/exec_boundary_relay.go:79-83 | a well-formed sequence decodes to the value it encodes; any other byte becomes U+FFFD alone |
| Utf8.ReplacedAlikeIffSingle | internal/npmprofile/exec_boundary_relay.go:79-83 | replacing byte by byte agrees with one U+FFFD for each ill-formed sequence iff no ill-formed sequence has more than one byte; otherwise it gives more of them |
| Utf8.ValidIffEncoded | internal/canonicaljson/strict.go:41-43 | bytes are valid UTF-8 iff they encode a text, iff decoding and encoding gives them back |
| Utf8.EncodedAsciiSuffix | internal/npmprofile/exec_boundary_relay.go:92-94 | testing the encoded payload for a doubled ASCII suffix is testing the text |
| Redaction.LongestIsLongest | internal/npmprofile/exec_boundary_relay.go:52-59 | the chosen match is a secret at the start, and no longer secret starts there |
| Redaction.LongestIsStable | internal/npmprofile/exec_boundary_relay.go:48-62 | once no secret can still grow out of the held bytes, later bytes never change the match |
| Redaction.ScanIsLeftmostLongest | internal/npmprofile/exec_boundary_relay.go:48-73 | the replacement scan is the one and only leftmost-longest segmentation of the stream |
| Redaction.ScanKeepsRaw | internal/npmprofile/exec_boundary_relay.go:63-71 | the segments put together are the raw stream: markers are never rescanned and no byte is lost |
| Redaction.SecretStartIsHidden | internal/npmprofile/exec_boundary_relay.go:50-73 | the first byte of every occurrence of a secret lies in a replaced span |
| Redaction.RedactLeavesOthers | internal/npmprofile/exec_boundary_relay.go:68-71 | bytes that hold no secret pass unchanged |
| Redaction.RedactStep | internal/npmprofile/exec_boundary_relay.go:60-71 | one committed streaming step agrees with the replacement of the whole stream |
| Collection.CollectKeepsSound | internal/npmprofile/exec_boundary_relay.go:86-113 | every collected payload keeps: counters equal size and line count, both within budget, no filtered rune, no `##[`, no empty line |
| Collection.CleanHasNoCommand | internal/npmprofile/exec_boundary_relay.go:92-94 | a clean payload holds no `##[` anywhere |
| Collection.CollectIsLongestFitting | internal/npmprofile/exec_boundary_relay.go:103-112 | the payload is the longest beginning of the unbounded filtered text that fits both budgets; truncation is flagged iff something is missing |
| Collection.GatheredLines | internal/npmprofile/exec_boundary_relay.go:86-101 | without budgets the relayed lines are the non-empty lines of the sifted stream |
| Collection.EncodedLines | internal/npmprofile/exec_boundary_relay.go:118-122 | splitting the payload bytes on newlines is splitting the text |
| Collection.PassingRunes | internal/npmprofile/exec_boundary_relay.go:87-91 | the runes that pass the filter: tab, newline, printable ASCII, and everything above that is no C1 control and no bidirectional control |
| Relay.StderrRelay.constructor | internal/npmprofile/exec_boundary_relay.go:27-35 | keeps exactly the values that are not empty and hold no line break, in order and as often as given, and starts empty |
| Relay.StderrRelay.Write | internal/npmprofile/exec_boundary_relay.go:37-46 | after any writes the state stands for the whole input: every continuation gives what the batch form gives |
| Relay.StderrRelay.Redact | internal/npmprofile/exec_boundary_relay.go:50-73 | commits until the held bytes are empty or a proper prefix of a secret; at the end commits everything; the batch result is unchanged |
| Relay.StderrRelay.Match | internal/npmprofile/exec_boundary_relay.go:52-59 | finds the longest secret at the start, and whether the held bytes may still grow into one |
| Relay.StderrRelay.Decode | internal/npmprofile/exec_boundary_relay.go:75-84 | hands on every decided rune, for every continuation; at the end hands on all that is left |
| Relay.StderrRelay.CollectRune | internal/npmprofile/exec_boundary_relay.go:86-113 | updates payload, counters and flags as the collector specification |
| Relay.StderrRelay.Emit | internal/npmprofile/exec_boundary_relay.go:115-126 | logs exactly the lines of the batch form of the whole input, then the notice iff truncated; at most 513 entries |
| Relay.StderrRelay.RetainedStateIsBounded | internal/npmprofile/exec_boundary_relay.go:18-25 | held bytes are a proper prefix of a secret, at most 3 UTF-8 bytes are undecided, payload at most 65536 + 512 bytes, counters exact |
| Relay.RelayedTextIsLongestFitting | internal/npmprofile/exec_boundary_relay.go:37-126 | end to end: the relayed text is the longest fitting beginning of the non-empty lines of the redacted, decoded, sifted input |
| Relay.CleanTextIsRelayedVerbatim | internal/npmprofile/exec_boundary_relay.go:37-126 | clean text without secrets and within budget is relayed as it is |
| Relay.LoneSecretIsLoggedAsMarker | internal/npmprofile/exec_boundary_relay.go:63-67 | a secret on its own is logged as exactly the marker, whatever its bytes |
| Relay.RelayProcess | internal/npmprofile/exec_boundary_relay.go:27-126 | one process, for every list of values and every way its output is cut into writes: the log is the batch log of all bytes; output that is one usable value is logged as `operation=… stderr: [REDACTED]`; the notice is there iff the unbounded text has more than 65536 bytes or 512 lines |
| Relay.UsableValueStartIsHidden | internal/npmprofile/exec_boundary_relay.go:27-73 | the first byte of every occurrence of a usable value lies in a replaced span |
| Relay.TruncatedIffTooLong | internal/npmprofile/exec_boundary_relay.go:103-112 | something is cut off iff the unbounded text exceeds a budget |
| Relay.NoticeIffTruncated | internal/npmprofile/exec_boundary_relay.go:115-126 | the truncation notice is logged iff something was cut off, and no line can be taken for it |
| Exposure.ShownSecretMeetsMark | internal/npmprofile/exec_boundary_relay.go:48-73 | wherever a secret shows after redaction a marker takes part in it, and what it has before the marker are kept bytes |
| Exposure.RedactionHidesApart | internal/npmprofile/exec_boundary_relay.go:48-73 | a secret no part of which can be taken for a part of the marker never shows after redaction, whatever the other secrets |
| Exposure.SurvivesIffExposable | internal/npmprofile/exec_boundary_relay.go:48-73 | a lone secret shows after redaction of some stream iff the marker overlays it at some place and the bytes before that place stay kept |
| Exposure.OccursBeforeDecoding | internal/npmprofile/exec_boundary_relay.go:75-84 | what shows after decoding was in the bytes, unless U+FFFD can be taken for a part of it |
| Exposure.LineStands | internal/npmprofile/exec_boundary_relay.go:86-122 | every relayed line of an unfiltered stream stands in that stream |
| Exposure.RelayedLinesHoldNoSecret | internal/npmprofile/exec_boundary_relay.go:37-126 | among any secrets, one that neither the marker nor U+FFFD can be taken for a part of stands in no relayed line when the rewritten stream passes the filter untouched |
| Exposure.RelayableIff | internal/npmprofile/exec_boundary_relay.go:37-126 | a plain lone secret is relayed for some input iff it has two bytes or more or occurs in the marker |
| Exposure.FilteringReassembles | internal/npmprofile/exec_boundary_relay.go:86-94 | a plain secret of at least two bytes with a control character after its first byte is relayed as it is |
| Exposure.FilteringReassemblesAb | internal/npmprofile/exec_boundary_relay.go:86-94 | the same for the secret `ab` and the bytes 61 01 62 |
| Exposure.MarkerCompletesSecret | internal/npmprofile/exec_boundary_relay.go:63-67 | the secret `]y` shows after redaction of `]yy` |
| Exposure.ReplacementReadsAsSecret | internal/npmprofile/exec_boundary_relay.go:79-83 | a byte that is no UTF-8 is relayed as the secret that encodes U+FFFD |
| Observations.Decide | internal/npmprofile/publish.go:365-423 | the flag-setting loop gives the verdict stated over the set of attestations |
| Observations.VerdictIgnoresOrder | internal/npmprofile/publish.go:392-409 | permuting the attestations changes no verdict |
| Observations.CommittedIffOurs | internal/npmprofile/publish.go:381-407 | committed iff the attempt counts and the observation shows the expected artifact with a qualifying attestation |
| Observations.TerminalVerdictIsFinal | internal/npmprofile/publish.go:365-423 | a verdict given before the budget is exhausted is the verdict at exhaustion, and never indeterminate |
| Observations.OursInFull | internal/npmprofile/publish.go:381-407 | the publication is ours iff digest and tarball name are the expected ones and some provenance attestation of this run verifies |
| Observations.ForeignIff | internal/npmprofile/publish.go:381-423 | foreign iff the version is there with another digest or tarball name, or every provenance attestation verifies, none counts as ours, and there is one or the budget is exhausted |
| Observations.AbsentIff | internal/npmprofile/publish.go:365-380 | absent iff the version was read as missing before a mutation; the package counts as missing iff it was read as missing |
| Convergence.Classify | internal/npmprofile/publish.go:305-351 | the polling loop ends at the first poll with an answer and gives that answer, for any registry, clock and sleep; each round up to there is observed once, in order |
| Convergence.EndsOnce | internal/npmprofile/publish.go:314-350 | a run ends at one poll only and with one answer |
| Convergence.IndeterminateIffError | internal/npmprofile/publish.go:329-349 | indeterminate is returned iff an error is |
| Convergence.AbsentAfterMutation | internal/npmprofile/publish.go:325-339 | after a mutation absent is returned iff E422 was reported, the reduced budget ends here, no poll showed the version and some error-free absence was observed in the window |
| Convergence.AbsentBeforeMutation | internal/npmprofile/publish.go:365-380 | before a mutation absent with an existing package is exactly a clean "package present, version absent" |
| Convergence.CommittedShowsOurs | internal/npmprofile/publish.go:386-407 | a committed answer rests on a last observation of this run's artifact |
| Convergence.LateCommitFlag | internal/npmprofile/publish.go:309-312 | the late-commit flag is set iff E422 was reported and some observation showed the version |
| Convergence.EndsWithin21 | internal/npmprofile/publish.go:33-35 | on a clock that advances by the interval during each sleep a run ends within 21 observations |
| Convergence.RejectedEndsWithin5 | internal/npmprofile/publish.go:333-339 | after E422, with a clean absence in the window and no version ever, within 5 |
| Convergence.PollsUntilDeadline | internal/npmprofile/publish.go:314-350 | polling goes on until 300 seconds are over, unless an observation settles the run, a sleep fails, or, after E422, 60 seconds are over with an absence seen and the version never |
| Environments.Environment.Sleep | internal/npmprofile/publish.go:347-347 | each sleep is recorded with its length; every sleep of a run is to last 15 seconds |
| Publication.NpmErrorCode | internal/npmprofile/publish.go:590-601 | returns the code of the first code line of the text, and "" iff there is none |
| Publication.BuiltRegistryServes | internal/diagnostic/registry.go:7-86 | a registry built from lists with the categories `Publish` uses and the override rows is coherent and knows its IDs as errors and warning |
| Environments.Environment.RunNpm | internal/npmprofile/publish.go:455-455 | each invocation of npm publish is recorded and has its own outcome |
| Publication.ReportFailure | internal/npmprofile/publish.go:511-530 | a failure has a report iff its text is non-empty UTF-8; the report holds the chosen error with exactly a carried text, with the npm version as evidence of a pin mismatch, and the warning; the chosen ID is primary iff it is registered as an error |
| Publication.ReportFixed | internal/npmprofile/publish.go:511-530 | a failure whose text the program fixes always has its report |
| Diagnostics.New | internal/diagnostic/diagnostic.go:167-183 | a diagnostic is made iff its ID is registered, check and message are non-empty UTF-8 and it is safe; it agrees with the registry |
| Publication.ReportSuccess | internal/npmprofile/publish.go:503-509 | the report passes and holds exactly the given warnings |
| Publication.Publish | internal/npmprofile/publish.go:136-196 | the calls made are exactly those the world calls for; npm publishes at most once, directly after a version check directly after a clean absence, and does so iff the run is cleared and npm starts; no answer iff the rounds are used up; every answer has its reason; success ends on an observation of this run's artifact |
| Publication.StoryPublishesOnce | internal/npmprofile/publish.go:136-196 | in every world the calls of a run publish at most once and cleanly |
| Publication.ConcludeEntry | internal/npmprofile/publish.go:142-163 | the same from the end of entry revalidation on, with the text of a failed sleep and the ID and text of a failed version check |
| Publication.ValidateNpmVersion | internal/npmprofile/publish.go:458-475 | no problem iff npm reports exactly the pinned version; otherwise the registered ID the foreign error carries, or the fallback, and its text |
| Publication.MutateAndReadBack | internal/npmprofile/publish.go:165-196 | from the npm invocation on: answers are explained by npm's code or by read-back and marked as mutating; no answer iff npm's code settles nothing and read-back does not end |
| Publication.ReadBack | internal/npmprofile/publish.go:174-196 | read-back and its conclusion |
| Publication.ConcludeReadback | internal/npmprofile/publish.go:175-195 | the answer for each way read-back ends; the last "did not converge" branch is unreachable |
| Publication.SteadyRunsAreAnswered | internal/npmprofile/publish.go:33-35 | on steady clocks 21 rounds a phase answer every run |
| Publication.AnswerIsDecided | internal/npmprofile/publish.go:136-196 | what the environment answers decides whether there is a report, success, mutation, state and error |
| Publication.AnsweredAtEntry | internal/npmprofile/publish.go:142-163 | a run not cleared to publish answers exactly by how entry revalidation ended and by the version check, carried ID and text included |
| Publication.AnsweredAfterMutation | internal/npmprofile/publish.go:165-196 | a cleared run answers exactly by npm's definitive code, or else by how read-back ended |
| Publication.NpmCodeDecides | internal/npmprofile/publish.go:579-601 | of a cleared run: `e401` or `e403` as the first code answers mutation-permission-denied, `eneedauth` or `e404` trusted-publisher-mismatch, any other code goes to read-back, which is told of E422 iff the code is `e422` |
| Publication.NoCodeLeavesReadback | internal/npmprofile/publish.go:590-601 | npm not started, succeeding, or failing without a code line goes to read-back |
| Publication.ReadbackAnswersByName | internal/npmprofile/publish.go:174-195 | the error answered for each state read-back can end in |
| Publication.EntryAnswersByName | internal/npmprofile/publish.go:142-163 | the error answered for each way a run is not cleared to publish |
| Publication.FailureIsPrimaryIff | internal/npmprofile/publish.go:511-530 | a run that does not succeed reports its error as primary iff every foreign error it stops at has a reportable text and names no warning |
| Publication.UnreportedIff | internal/npmprofile/publish.go:511-515 | a run ends without a report iff it stops at a foreign error whose text is empty or not UTF-8 |
| Publication.AnsweredAtCause | internal/npmprofile/publish.go:650-659 | a run that stops at a foreign error fails with the registered ID it carries, and otherwise with a listed error |
| Publication.ChosenErrorIsListedOrCarried | internal/npmprofile/publish.go:650-659 | a prepared run fails with a listed error or with the registered ID of a failed version check |
| Publication.VersionFailureAnswersItsID | internal/npmprofile/publish.go:158-160 | a version check failing with a registered ID, as for npm outside the toolchain roots, answers that ID |
| Publication.UnreadableVersionFailure | internal/npmprofile/publish.go:458-462 | a failing npm whose text is not UTF-8 leaves the run without a report |
| Publication.RunPreventedUnreadably | internal/npmprofile/publish.go:511-515 | a run prevented by an error whose text is the byte FF ends without a report |
| Publication.RunPreventedByWarning | internal/npmprofile/publish.go:650-659 | a run prevented by an error that names the late-commit warning fails with a passing report |
| Publication.UnmutatedSuccessIsRetry | internal/npmprofile/publish.go:402-406 | success without a mutation implies a run attempt above 1 |
| Publication.MutatedSuccessWarnsIffRejected | internal/npmprofile/publish.go:178-195 | success after a mutation carries the late-commit warning iff npm reported E422 |
| Publication.RejectionMeansNeverSeen | internal/npmprofile/publish.go:174-177 | "rejected as unprocessable" implies E422 and that no read-back observation showed the version |
| FailurePaths.ValidPath | internal/npmprofile/publish_diagnostics.go:187-237 | the index loop accepts exactly the paths of the grammar: a root, then `.field` and `[index]` segments, at most 256 bytes |
| FailurePaths.ValidSegments | internal/npmprofile/publish_diagnostics.go:211-236 | accepts a tail iff it is a sequence of printed segments |
| FailurePaths.RootIsUnique | internal/npmprofile/publish_diagnostics.go:191-207 | at most one root starts a path, so stopping at the first is no loss |
| FailurePaths.PathShape | internal/npmprofile/publish_diagnostics.go:192-198 | accepted paths have 28 to 256 bytes and hold no space and no comma |
| FailurePaths.ValidCode | internal/npmprofile/publish_diagnostics.go:175-185 | accepts exactly an upper-case letter followed by at most 63 letters, digits and underscores |
| FailureFamily.WrapperMayBreakTheLine | internal/npmprofile/publish_failure_family.go:69-79 | the wrapper and its body are recognised alike on one line and on two |
| FailureFamily.DetailsMayBreakTheLine | internal/npmprofile/publish_failure_family.go:115-128 | a list of complete mismatches is recognised alike whole or broken after a comma |
| Recognizer.FailureRecognizer.Write | internal/npmprofile/publish_diagnostics.go:37-55 | after any writes the state is the fold of the line observer over the stream's lines, each cut to 2048 bytes with a completeness flag |
| Recognizer.FailureRecognizer.Summary | internal/npmprofile/publish_diagnostics.go:58-69 | the summary of all lines including the unterminated one; nothing is changed; for every stream it has at most 4065 bytes and a reader recovers the facts from it, also when there are none |
| Recognizer.FailureRecognizer.ObserveLine | internal/npmprofile/publish_diagnostics.go:76-132 | updates the fields as the line observer |
| Recognizer.FailureRecognizer.ObserveFamily | internal/npmprofile/publish_failure_family.go:49-96 | updates family and stage as one family step |
| Recognizer.FailureRecognizer.ObservePredicateDetails | internal/npmprofile/publish_failure_family.go:115-128 | settles or continues the mismatch list iff every detail is complete |
| Recognizer.FailureRecognizer.AddPredicatePath | internal/npmprofile/publish_diagnostics.go:134-148 | appends a new grammatical path that fits, and keeps the size the sum of lengths |
| Recognizer.FailureRecognizer.StateIsBounded | internal/npmprofile/publish_diagnostics.go:16-18 | retained bytes never exceed the declared bound; paths are distinct and grammatical and their size is the sum of lengths |
| Recognizer.ObserveKeepsSound | internal/npmprofile/publish_diagnostics.go:76-148 | one line keeps the invariant and only adds facts |
| Recognizer.RememberedOnlyGrows | internal/npmprofile/publish_diagnostics.go:92-148 | along every stream code, status and family stay as first set and paths are only appended |
| Recognizer.SummaryIsBounded | internal/npmprofile/publish_diagnostics.go:150-173 | the summary never exceeds 4065 bytes, inside the declared 8192, because every path has at least 28 bytes |
| Recognizer.NewlineKeepsSummary | internal/npmprofile/publish_diagnostics.go:58-69 | appending a newline does not change the summary |
| Recognizer.ReaderRecoversSummary | internal/npmprofile/publish_diagnostics.go:150-173 | a reader splitting on spaces and commas recovers family, code, status and paths exactly |
| Recognizer.SummaryOfStream | internal/npmprofile/publish_diagnostics.go:150-173 | for every stream the summary is bounded and read back to exactly what was recognised |
| FailureTemplates.FamilyIffFirstRejection | internal/npmprofile/publish_failure_family.go:49-149 | a family is recognised iff consecutive lines carry a complete rejection of that family — wrapper and body on one line or two, with or without status and route, lists broken after commas — and none ends earlier |
| FailureFacts.TemplateTexts | internal/npmprofile/publish_failure_family.go:17-99 | the fixed parts of the templates |
| FailureFacts.RepositoryMismatchIff | internal/npmprofile/publish_failure_family.go:98-113 | a repository mismatch is complete iff it is the template around two values without quotes, the expected one not empty |
| FailureFacts.PredicateMismatchIff | internal/npmprofile/publish_failure_family.go:130-150 | a detail is complete iff it compares one of the ten fields with its own claim, its expected value not blank, and its observed value absent or not blank and followed by a space |
| FailureFacts.SummaryTellsTheLines | internal/npmprofile/publish_diagnostics.go:37-173 | for every stream the summary names the family of the first rejection to end, the first code, the first status, and exactly the reported paths except those for which there was no room; nothing it names was not reported |
| FailureFacts.SummariseOutput | internal/npmprofile/publish_diagnostics.go:37-69 | the same for one process, however its output is cut into writes |
| FailureFacts.MissingClaimExample | internal/npmprofile/publish_failure_family.go:94-95 | a missing certificate claim on one line is summarised as `missing-certificate-claim` |
| StrictJson.ParseDocIsSound | internal/canonicaljson/strict.go:66-140 | what is parsed is printed by the consumed tokens, has distinct names at every depth and nests within the limit |
| StrictJson.ParsePrinted | internal/canonicaljson/strict.go:66-140 | printing and parsing a permitted document gives it back, whatever follows |
| StrictJson.AcceptsExactlyStrictDocuments | internal/canonicaljson/strict.go:40-64 | exactly the token streams that print one document with distinct names and nesting at most 10000 are accepted |
| StrictJson.MeaningIffSays | internal/canonicaljson/strict.go:66-140 | the value of a document is the one with the same scalars, the same items in order and for each name the value given to it |
| StrictJson.Decoder.ParseValue | internal/canonicaljson/strict.go:66-96 | the cursor parser answers as the parser on the remaining tokens, with the same error or value and rest |
| StrictJson.Decoder.ParseObject | internal/canonicaljson/strict.go:98-125 | the member loop fills the map of the parsed members or reports the same error, duplicates included |
| StrictJson.Decoder.ParseArray | internal/canonicaljson/strict.go:127-140 | the element loop collects the parsed items or reports the same error |
| StrictJson.Decoder.ConsumeClosing | internal/canonicaljson/strict.go:142-152 | consumes the wanted delimiter or fails |
| StrictJson.ParseTokens | internal/canonicaljson/strict.go:48-63 | one complete value and nothing after it |
| JsonErrors.FailsIffBlamed | internal/canonicaljson/strict.go:40-152 | tokens fail with an error iff they have a strict beginning and then a token, or their end, that does not fit for this reason, or are a whole document with more behind it |
| JsonErrors.DuplicateIff | internal/canonicaljson/strict.go:98-125 | a duplicate member is reported iff, at any depth within the limit, a name repeats an earlier one of its object after a strict beginning, whatever follows |
| JsonErrors.TooDeepIff | internal/canonicaljson/strict.go:66-80 | the depth error is reported iff, after a strict beginning, a delimiter stands where a value is read inside 10000 open containers |
| JsonErrors.TrailingIff | internal/canonicaljson/strict.go:48-63 | trailing data is reported iff a whole strict document is followed by a token |
| JsonEscapes.DecodeCodeUnit | internal/canonicaljson/strict.go:198-212 | decodes four hexadecimal digits; the 16-bit accumulation never wraps and no index is out of range |
| JsonEscapes.ValidateUnicodeEscapes | internal/canonicaljson/strict.go:154-196 | accepts a byte string iff it splits into lexical items whose escapes spell well-formed UTF-16 |
| JsonEscapes.EscapesAreAcceptedIffUtf16 | internal/canonicaljson/strict.go:154-196 | after any well-formed text ending inside a string, escapes up to the closing quote are accepted iff their units are well-formed UTF-16 |
| JsonEquality.EqualValuesIsEquality | internal/canonicaljson/canonical.go:46-85 | the one-directional member loop with equal sizes decides equality of values, hence an equivalence |
| JsonEquality.SameMeaningIffReordered | internal/canonicaljson/canonical.go:46-85 | accepted documents mean the same iff they differ only in member order at any depth |
| JsonEquality.EqualIffReordered | internal/canonicaljson/canonical.go:33-44 | `Equal` on accepted inputs is true iff they differ only in member order |
| JsonText.CheckUtf8 | internal/canonicaljson/strict.go:41-43 | the rune loop decides UTF-8 validity |
| JsonText.ParseText | internal/canonicaljson/strict.go:40-64 | the checks come first and in order; a readable text gives what its tokens give |
| JsonText.AcceptsExactlyStrictTexts | internal/canonicaljson/strict.go:40-64 | exactly the texts that are UTF-8, spell well-formed UTF-16 and whose tokens print one document with distinct names and bounded nesting are accepted |
| JsonText.Equal | internal/canonicaljson/canonical.go:33-44 | succeeds iff both texts are accepted, and is then true iff they differ only in member order |
| SemverRange.VersionTrichotomy | internal/npmprofile/semver_range.go:59-62 | of two versions exactly one precedes the other or they are equal |
| SemverRange.VersionTransitive | internal/npmprofile/semver_range.go:59-62 | precedence is transitive |
| SemverRange.StandardOrder | internal/npmprofile/semver_range.go:59-62 | the order of the examples in item 11 of Semantic Versioning 2.0.0 |
| SemverRange.OperatorsPartition | internal/npmprofile/semver_range.go:380-412 | `>p` and `<=p` split all versions, and so do `>=p` and `<p` |
| SemverRange.HyphenIsBothEnds | internal/npmprofile/semver_range.go:466-486 | a hyphen range is `>=` its left end and `<=` its right end |
| SemverRange.XRangeIsAgreement | internal/npmprofile/semver_range.go:391-395 | an X-range holds exactly the releases that agree with its given components |
| SemverRange.TildeIsAgreement | internal/npmprofile/semver_range.go:416-432 | `~p` holds exactly the releases at or above `p` with its major and, if given, minor |
| SemverRange.CaretIsAgreement | internal/npmprofile/semver_range.go:437-460 | `^p` holds exactly the releases at or above `p` that agree with it through the leftmost non-zero given component |
| SemverRange.IncrementsDoNotOverflow | internal/npmprofile/semver_range.go:109-123 | increments stay far inside 64 bits |
| SemverText.ParsePartialVersion | internal/npmprofile/semver_range.go:139-184 | the parsing loop reads a partial version as specified: numbers, then wildcards, prerelease only where allowed |
| SemverText.ParsePartial | internal/npmprofile/semver_range.go:139-215 | every parsed partial is valid: at most three components within the ceiling, prerelease only on a full version |
| SemverText.DecimalOfPrint | internal/npmprofile/semver_range.go:198-215 | printing and reading a number gives it back, without a leading zero |
| SemverText.ArmMatches | internal/npmprofile/semver_range.go:278-322 | the loops over fields, lone operators and comparators evaluate an arm as specified |
| SemverText.JoinOperators | internal/npmprofile/semver_range.go:302-314 | binds every lone operator to the field after it, or rejects |
| SemverText.DeclaredMatchesActual | internal/npmprofile/semver_range.go:30-48 | true iff the version parses, every arm could be read as far as reading went, and some arm matches |
| SemverText.ReadableDeclarationsMean | internal/npmprofile/semver_range.go:30-48 | when every token parses, a declaration matches iff all comparators of some arm contain the version |
| SemverText.DepartsFromDocumentedRule | internal/npmprofile/semver_range.go:315-320 | the code departs from the documented rule iff it matches while some arm hides an unreadable comparator behind an excluding one |
| SemverText.UnreadableArmMatches | internal/npmprofile/semver_range.go:27-29 | a declaration text of the two arms `>2.0.0 y` and `1.0.0`, the first unreadable, matches 1.0.0 |
| SemverText.ArmOrderDoesNotMatter | internal/npmprofile/semver_range.go:40-47 | permuting the arms changes nothing |
| SemverText.ComparatorOrderDoesNotMatter | internal/npmprofile/semver_range.go:315-321 | permuting comparators that all parse changes nothing |
| SemverText.ParsePrintedRelease | internal/npmprofile/semver_range.go:64-72 | a printed release parses back to its components |
| SemverText.PrintedReleasesMatchIffEqual | internal/npmprofile/semver_range.go:14-15 | printed releases within the component ceiling match iff they are equal |
| SemverMeaning.PrintedDeclarationsMean | internal/npmprofile/semver_range.go:30-48 | a declaration written from any arms of comparators, operators attached or apart, and hyphen ranges matches a printed version iff some arm holds |
| SemverMeaning.ComparatorMeans | internal/npmprofile/semver_range.go:344-412 | what each of `^`, `~`, `>=`, `>`, `<=`, `<`, `=` and no operator before a printed partial means, by precedence and agreement |
| SemverMeaning.HyphenMeans | internal/npmprofile/semver_range.go:466-486 | `a - b` matches iff the version is at or above `a` and not past `b` |
| SemverMeaning.ParsePrintedPartial | internal/npmprofile/semver_range.go:139-215 | a printed partial parses back |
| SemverMeaning.WildcardsGiveNothing | internal/npmprofile/semver_range.go:139-184 | trailing wildcards leave the components before them |
| SemverMeaning.WildcardMatchesAll | internal/npmprofile/semver_range.go:391-395 | a wildcard alone matches every printed release |
| Diagnostics.ApplyRowKeepsCoherent | internal/diagnostic/registry.go:88-121 | an override row changes exactly the listed errors, keeps every error below every warning, and panics iff one is unregistered |
| Diagnostics.OverridesAreErrorOverrides | internal/diagnostic/registry.go:31-83 | every override row gives an error precedence and a failing exit code |
| Diagnostics.RegistryBuilder.BuildRegistry | internal/diagnostic/registry.go:7-86 | panics iff a category is repeated or a row names an unlisted one; otherwise the registry holds exactly the listed IDs, warnings by default and errors as overridden row by row, and is coherent |
| Diagnostics.LastRowWins | internal/diagnostic/registry.go:95-121 | an error's precedence, and what a full row sets, are those of the last row that lists it |
| Diagnostics.BuiltIsCoherent | internal/diagnostic/registry.go:7-86 | in a built registry every error sorts before every warning and fails the run |
| Diagnostics.RegistryBuilder.Register | internal/diagnostic/registry.go:88-93 | adds a new definition, or panics on a duplicate |
| Diagnostics.RegistryBuilder.Apply | internal/diagnostic/registry.go:95-121 | the update loop applies a row to its categories in turn |
| Diagnostics.DiagnosticLessIsWeakOrder | internal/diagnostic/diagnostic.go:450-468 | the comparison is a strict weak order and ties have the same ID and canonical form |
| Diagnostics.EntriesInOrder | internal/diagnostic/diagnostic.go:450-468 | the entries of a valid report ascend by precedence, then ID, field, actual value and canonical form |
| Diagnostics.PrimaryIsLeast | internal/diagnostic/diagnostic.go:209-218 | the primary diagnostic has the least precedence of all errors, and among those the least ID |
| Diagnostics.Validate | internal/diagnostic/diagnostic.go:226-264 | checking schema version, null array, metadata and neighbours decides that the whole report is ordered, valid and correctly derived |
| Diagnostics.Build | internal/diagnostic/diagnostic.go:186-223 | succeeds iff every diagnostic, the metadata and the run invocation are valid; the report satisfies the closed contract and holds exactly the given diagnostics, whatever stable or unstable sort is used |
| Diagnostics.FailsIffFirstIsError | internal/diagnostic/diagnostic.go:209-218 | a report fails iff its first entry is an error, and then carries its ID and exit code |
| Diagnostics.ReportIsDeterministic | internal/diagnostic/diagnostic.go:199-199 | the canonical report depends only on the multiset of diagnostics; so rebuilding a report from its own changes nothing |
| Diagnostics.ErrorAmongWarningsIsPrimary | internal/diagnostic/diagnostic.go:209-218 | one error reported with warnings is the primary diagnostic |
| PolicyIntersection.NormalizeAllowed | internal/policy/intersection.go:173-188 | succeeds iff the values are non-empty and distinct, and returns them strictly sorted |
| PolicyIntersection.NewConstraintSet | internal/policy/intersection.go:61-80 | succeeds iff source and fields are acceptable and distinct, and holds exactly the normalised values |
| PolicyIntersection.NarrowingIsIntersection | internal/policy/intersection.go:139-148 | a narrowing candidate is itself the intersection, so an empty intersection cannot occur |
| PolicyIntersection.Intersect | internal/policy/intersection.go:107-153 | succeeds iff all sets are initialised and every field's constraining sources descend; then each field has the last source's values and lists its sources in order, for every map iteration order; otherwise the failure is that of the first set at which it stops: not initialised, or widening the named field |
| PolicyIntersection.Narrow | internal/policy/intersection.go:122-150 | the loop over one candidate's fields, in any order |
| PolicyIntersection.EffectiveInsideEverySource | internal/policy/intersection.go:106-153 | the effective values lie inside those of every source that constrains the field |
| PolicyIntersection.NarrowingShrinksConstrainedFields | internal/policy/intersection.go:160-163 | adding a source never lets a field allow more iff the field was already constrained or is not constrained by it |
| PolicyIntersection.FirstConstraintAllowsMore | internal/policy/intersection.go:117-130 | a baseline that leaves a field free, one source, and a value allowed only after it |
| Workspace.Match | internal/npmprofile/workspace.go:159-181 | the recursion on indices terminates and decides the match of the remaining segments |
| Workspace.MatchIffSplits | internal/npmprofile/workspace.go:153-182 | a path matches iff it splits into consecutive pieces, one for each pattern segment |
| Workspace.MatchPattern | internal/npmprofile/workspace.go:153-182 | a relative path as text matches a pattern text iff its segments, none for `.`, split into fitting pieces |
| Workspace.SegmentsOfText | internal/npmprofile/workspace.go:153-158 | the text of a relative path splits into its segments again |
| Workspace.DiscoverRoot | internal/npmprofile/workspace.go:14-50 | returns the nearest claiming directory from the selected one up to the repository, fails on a blocking one, else returns the selected directory |

## Left out

- Signature, certificate and transparency-log verification: a bundle verifier is an arbitrary function from bytes to an optional verified statement.
- HTTP, processes, files, temporary directories and the writer lock of `exec_boundary_relay.go:129-138`: the relay and recogniser are driven by the bytes written, the protocol by the responses observed.
- `preparePublish` and the bindings it checks: a prepared run, or the error that prevented it, is part of the environment.
- Running npm: a command's output and failure are part of the environment; output is text, so how bytes that are not UTF-8 are lower-cased is not modelled.
- Base64 and URL parsing in `normalizeSHA512SRI` and `registryTarballMatches`: parameters.
- The wording of messages and check names the program fixes: they are non-empty UTF-8. Foreign texts are modelled, with the fixed beginning the version check gives them.
- Environments.Environment.RunNpm: the artifact, token and bundle checks before npm starts (`publish.go:443-454`) are one outcome, "not started".
- UTF-8 validity of field names, policy sources, evidence and the RFC 8785 and secrecy checks of `validateDiagnostic` and of a package manifest: abstract predicates.
- The texts of the error and warning category lists of the registry: the theorems hold for any lists, and say for which ones building panics; the override rows are modelled.
- `encoding/json` lexing: cutting a text into tokens is a parameter, and a number token already carries its double or the fact that it has none.
- `Canonicalize` and the RFC 8785 transformer.
- `validateWorkspacePattern` and the reading of manifests and pnpm files: a directory's metadata is a value; patterns are taken as given.
- Operational log prefix, debug summaries of observations and the CLI around them.
- Identity, descriptor, digest, PURL, provenance and workflow checks: long conjunctions or easy round trips.
- Exposure.RedactionHidesApart: sufficient but not necessary. With several secrets a text can show through any chain of their markers and kept bytes between them; the exact condition is given for one secret (`Exposure.SurvivesIffExposable`).
- Exposure.RelayedLinesHoldNoSecret: its conditions exclude all streams the filter changes, also those in which nothing is put together again.
