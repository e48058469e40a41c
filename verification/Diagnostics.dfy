/** The diagnostic registry and the report built from diagnostics. */
module Diagnostics {
  import opened Text
  import opened Orders
  import opened Utf8

  datatype Severity = Error | Warning

  datatype Phase = Invocation | Policy | Verification | PreMutation | Mutation

  datatype Definition = Definition(id: string, severity: Severity, category: string, phase: Phase,
                                   exitCode: nat, mutationPossible: bool, precedence: nat)

  type Registry = map<string, Definition>

  const EXIT_PASS: nat := 0
  const EXIT_POLICY: nat := 1
  const EXIT_INVOCATION: nat := 2
  const WARNING_PRECEDENCE: nat := 8
  const ERROR_PREFIX := "windlass.verify.error."
  const WARNING_PREFIX := "windlass.verify.warning."

  /** One row of the override tables: `set` replaces four properties, `setPrecedence` one. */
  datatype Override =
    | Set(phase: Phase, exitCode: nat, mutationPossible: bool, precedence: nat, categories: seq<string>)
    | SetPrecedence(precedence: nat, categories: seq<string>)

  /** What every row of the tables in the source satisfies: an error precedence and a failing exit code. */
  ghost predicate ErrorOverride(row: Override) {
    && row.precedence < WARNING_PRECEDENCE
    && (row.Set? ==> row.exitCode in {EXIT_POLICY, EXIT_INVOCATION})
  }

  /** The override rows of the source, in order. */
  const OVERRIDES: seq<Override> := [
    Set(Invocation, EXIT_INVOCATION, false, 1, ["verification-mode-invalid", "input-unavailable",
        "verifier-execution-failure"]),
    Set(Policy, EXIT_POLICY, false, 1, ["policy-schema-invalid", "duplicate-json-member",
        "legacy-trust-root-override", "package-manifest-invalid", "package-metadata-required", "package-private",
        "package-resolution-invalid", "package-manager-conflict", "package-manager-version-required",
        "package-manager-digest-malformed", "package-manager-digest-mismatch", "yarn-selection-invalid",
        "required-lockfile-missing", "package-repository-identity-mismatch", "pnpm-version-unsupported",
        "yarn-version-unsupported"]),
    SetPrecedence(1, ["diagnostics-contract-invalid", "digest-encoding-invalid", "digest-mismatch",
        "handoff-schema-mismatch", "resolved-dependencies-lockfile", "subject-sha256-missing",
        "missing-subject-sha256", "missing-subject-sha512"]),
    SetPrecedence(2, ["ungoverned-trust-root", "stale-pinned-trust-root", "verification-network-call"]),
    SetPrecedence(3, ["signature-invalid", "signature-mismatch", "missing-sct", "missing-rekor-entry",
        "signature-time-violation"]),
    SetPrecedence(4, ["issuer-mismatch", "signer-mismatch", "signer-identity-claim-missing",
        "signer-identity-untrusted", "signer-workflow-path-mismatch", "signer-workflow-sha-mismatch",
        "source-identity-mismatch", "source-numeric-id-mismatch", "source-digest-mismatch", "source-ref-mismatch",
        "source-repository-canonicalization-error", "run-invocation-uri-invalid", "self-hosted-runner",
        "wrong-producer-signer"]),
    SetPrecedence(5, ["trusted-producer-policy-conflict"]),
    SetPrecedence(6, ["statement-type-invalid", "predicate-type-invalid", "wrong-predicate-type",
        "wrong-manifest-predicate-type", "builder-id-not-immutable", "wrong-builder-id", "build-type-not-canonical",
        "wrong-build-type", "external-parameters-incomplete", "external-parameters-unexpected",
        "unexpected-external-parameters", "unexpected-internal-parameters", "subject-cardinality-error",
        "subject-cardinality-invalid", "subject-name-mismatch", "subject-digest-scope-invalid",
        "statement-assembly-mismatch"]),
    Set(PreMutation, EXIT_POLICY, false, 7, ["release-target-immutable", "handoff-schema-mismatch",
        "publisher-remote-digest-unproven", "npm-oidc-exchange-indeterminate", "oidc-capability-unavailable",
        "source-ref-invalid", "npm-provision-download", "npm-provision-digest-mismatch",
        "npm-provision-archive-unsafe", "npm-provision-version-mismatch", "node-runtime-provision-download",
        "node-runtime-provision-digest-mismatch", "node-runtime-provision-archive-unsafe",
        "node-runtime-provision-layout-violation", "node-runtime-provision-version-mismatch",
        "publish-npm-pin-mismatch", "toolchain-pair-mismatch", "toolchain-pin-drift"]),
    Set(Mutation, EXIT_POLICY, false, 7, ["mutation-permission-denied"]),
    Set(Mutation, EXIT_POLICY, true, 7, ["publisher-indeterminate-primary-upload", "mutation-queue-overflow",
        "manifest-partial-json-uploaded", "manifest-indeterminate-json-upload", "manifest-remote-digest-unproven",
        "sidecar-upload-partial-failure", "duplicate-release-asset", "duplicate-sidecar-asset",
        "registry-linkage-mismatch", "publish-rejected-unprocessable", "custom-registry-tokenless-auth-failed",
        "custom-registry-provenance-submission-rejected", "custom-registry-linkage-metadata-absent",
        "custom-registry-digest-semantics-mismatch"])]

  lemma OverridesAreErrorOverrides()
    ensures forall row :: row in OVERRIDES ==> ErrorOverride(row)
  {
  }

  /** The facts `Build` relies on: every error sorts before every warning and fails the run. */
  ghost predicate Coherent(registry: Registry) {
    forall id {:trigger registry[id]} :: id in registry ==>
      var d := registry[id];
      && d.id == id
      && (d.severity.Error? ==> d.precedence < WARNING_PRECEDENCE && d.exitCode in {EXIT_POLICY, EXIT_INVOCATION})
      && (d.severity.Warning? ==> d.precedence == WARNING_PRECEDENCE && d.exitCode == EXIT_PASS)
  }

  ghost predicate ErrorIdsAreErrors(registry: Registry) {
    forall category {:trigger ERROR_PREFIX + category} :: ERROR_PREFIX + category in registry ==>
      registry[ERROR_PREFIX + category].severity.Error?
  }

  function Overridden(d: Definition, row: Override): Definition {
    match row
    case Set(phase, exitCode, mutationPossible, precedence, _) =>
      d.(phase := phase, exitCode := exitCode, mutationPossible := mutationPossible, precedence := precedence)
    case SetPrecedence(precedence, _) => d.(precedence := precedence)
  }

  /** The registry after a row has been applied to the listed categories in turn; None is the source's panic. */
  function ApplyRow(registry: Registry, row: Override, categories: seq<string>): Option<Registry> {
    if categories == [] then Some(registry)
    else
      var before := ApplyRow(registry, row, Init(categories));
      var id := ERROR_PREFIX + Last(categories);
      if before.None? || id !in before.value then None
      else Some(before.value[id := Overridden(before.value[id], row)])
  }

  predicate Listed(categories: seq<string>, id: string) {
    exists c :: c in categories && id == ERROR_PREFIX + c
  }

  /** `after` is `registry` with exactly the listed errors overridden. */
  ghost predicate RowApplied(registry: Registry, row: Override, categories: seq<string>, after: Registry) {
    && Coherent(after) && ErrorIdsAreErrors(after)
    && after.Keys == registry.Keys
    && forall id :: id in registry ==>
         after[id] == if Listed(categories, id) then Overridden(registry[id], row) else registry[id]
  }

  /** A row keeps the registry coherent and changes exactly the listed errors; it panics on an unregistered one. */
  lemma {:induction false} ApplyRowKeepsCoherent(registry: Registry, row: Override, categories: seq<string>)
    requires Coherent(registry) && ErrorIdsAreErrors(registry) && ErrorOverride(row)
    ensures ApplyRow(registry, row, categories).None? <==>
            exists c :: c in categories && ERROR_PREFIX + c !in registry
    ensures ApplyRow(registry, row, categories).Some? ==>
              RowApplied(registry, row, categories, ApplyRow(registry, row, categories).value)
  {
    if categories != [] {
      hide Coherent, ErrorIdsAreErrors;
      InitLast(categories);
      ApplyRowKeepsCoherent(registry, row, Init(categories));
      var before, c := ApplyRow(registry, row, Init(categories)), Last(categories);
      assert forall x :: x in categories <==> x in Init(categories) || x == c;
      if before.Some? && ERROR_PREFIX + c in registry {
        OverrideStep(registry, row, Init(categories), c, before.value);
      }
    }
  }

  lemma OverrideStep(registry: Registry, row: Override, front: seq<string>, c: string, before: Registry)
    requires ErrorOverride(row) && RowApplied(registry, row, front, before)
    requires ERROR_PREFIX + c in registry
    ensures var id := ERROR_PREFIX + c;
            RowApplied(registry, row, front + [c], before[id := Overridden(before[id], row)])
  {
    var id := ERROR_PREFIX + c;
    assert forall x :: x in front + [c] <==> x in front || x == c;
    assert forall other :: Listed(front + [c], other) <==> Listed(front, other) || other == id;
  }

  // ---- What a finished registry holds.

  function DefaultError(c: string): (d: Definition)
    ensures d.id == ERROR_PREFIX + c
  {
    Definition(ERROR_PREFIX + c, Error, c, Verification, EXIT_POLICY, false, 7)
  }

  function DefaultWarning(c: string): (d: Definition)
    ensures d.id == WARNING_PREFIX + c
  {
    Definition(WARNING_PREFIX + c, Warning, c, Verification, EXIT_PASS, false, WARNING_PRECEDENCE)
  }

  /** What a category's definition becomes when the rows that list it override it in turn. */
  function AfterRows(d: Definition, c: string, rows: seq<Override>): Definition {
    if rows == [] then d
    else
      var before := AfterRows(d, c, Init(rows));
      if c in Last(rows).categories then Overridden(before, Last(rows)) else before
  }

  /** Precedence, and for a full row everything it sets, are those of the last row that lists the category. */
  lemma {:induction false} LastRowWins(d: Definition, c: string, rows: seq<Override>, i: nat)
    requires i < |rows| && c in rows[i].categories
    requires forall j :: i < j < |rows| ==> c !in rows[j].categories
    ensures var after, row := AfterRows(d, c, rows), rows[i];
            && after.precedence == row.precedence
            && (row.Set? ==> after.phase == row.phase && after.exitCode == row.exitCode
                             && after.mutationPossible == row.mutationPossible)
    decreases |rows|
  {
    if i < |rows| - 1 {
      LastRowWins(d, c, Init(rows), i);
    }
  }

  ghost predicate Repeats(s: seq<string>) {
    exists i, j :: 0 <= i < j < |s| && s[i] == s[j]
  }

  ghost predicate Unregistered(errors: seq<string>, rows: seq<Override>) {
    exists i, c :: 0 <= i < |rows| && c in rows[i].categories && c !in errors
  }

  /** The registry holds the listed categories and nothing else: warnings with their defaults, errors with theirs as
      overridden by the rows. */
  ghost predicate Built(registry: Registry, errors: seq<string>, warnings: seq<string>, rows: seq<Override>) {
    && (forall id :: id in registry ==> HasPrefix(id, ERROR_PREFIX) || HasPrefix(id, WARNING_PREFIX))
    && (forall c {:trigger ERROR_PREFIX + c} :: ERROR_PREFIX + c in registry <==> c in errors)
    && (forall c {:trigger WARNING_PREFIX + c} :: WARNING_PREFIX + c in registry <==> c in warnings)
    && (forall c :: c in errors ==> registry[ERROR_PREFIX + c] == AfterRows(DefaultError(c), c, rows))
    && (forall c :: c in warnings ==> registry[WARNING_PREFIX + c] == DefaultWarning(c))
  }

  lemma PrefixedIDs(c: string, d: string)
    ensures ERROR_PREFIX + c == ERROR_PREFIX + d <==> c == d
    ensures WARNING_PREFIX + c == WARNING_PREFIX + d <==> c == d
    ensures ERROR_PREFIX + c != WARNING_PREFIX + d
    ensures HasPrefix(ERROR_PREFIX + c, ERROR_PREFIX) && HasPrefix(WARNING_PREFIX + c, WARNING_PREFIX)
  {
    assert (ERROR_PREFIX + c)[|ERROR_PREFIX|..] == c && (ERROR_PREFIX + d)[|ERROR_PREFIX|..] == d;
    assert (WARNING_PREFIX + c)[|WARNING_PREFIX|..] == c && (WARNING_PREFIX + d)[|WARNING_PREFIX|..] == d;
    assert (ERROR_PREFIX + c)[16] == 'e' && (WARNING_PREFIX + d)[16] == 'w';
  }

  lemma BuiltError(registry: Registry, errors: seq<string>, c: string)
    requires Built(registry, errors, [], []) && c !in errors
    ensures Built(registry[ERROR_PREFIX + c := DefaultError(c)], errors + [c], [], [])
  {
    hide DefaultError, HasPrefix;
    PrefixedIDs(c, c);
    forall d
      ensures ERROR_PREFIX + c == ERROR_PREFIX + d <==> c == d
      ensures ERROR_PREFIX + c != WARNING_PREFIX + d
    {
      PrefixedIDs(c, d);
    }
  }

  lemma BuiltWarning(registry: Registry, errors: seq<string>, warnings: seq<string>, c: string)
    requires Built(registry, errors, warnings, []) && c !in warnings
    ensures Built(registry[WARNING_PREFIX + c := DefaultWarning(c)], errors, warnings + [c], [])
  {
    hide DefaultError, DefaultWarning, AfterRows, HasPrefix;
    PrefixedIDs(c, c);
    forall d
      ensures WARNING_PREFIX + c == WARNING_PREFIX + d <==> c == d
      ensures ERROR_PREFIX + d != WARNING_PREFIX + c
    {
      PrefixedIDs(c, d);
      PrefixedIDs(d, c);
    }
  }

  /** Overriding keeps an error's severity and gives it an error precedence and a failing exit code. */
  lemma {:induction false} AfterRowsIsError(c: string, rows: seq<Override>)
    requires forall row :: row in rows ==> ErrorOverride(row)
    ensures var d := AfterRows(DefaultError(c), c, rows);
            && d.id == ERROR_PREFIX + c && d.severity.Error? && d.category == c
            && d.precedence < WARNING_PRECEDENCE && d.exitCode in {EXIT_POLICY, EXIT_INVOCATION}
  {
    if rows != [] {
      assert Last(rows) in rows;
      AfterRowsIsError(c, Init(rows));
    }
  }

  /** A finished registry has what the reports rely on. */
  lemma BuiltIsCoherent(registry: Registry, errors: seq<string>, warnings: seq<string>, rows: seq<Override>)
    requires Built(registry, errors, warnings, rows) && forall row :: row in rows ==> ErrorOverride(row)
    ensures Coherent(registry) && ErrorIdsAreErrors(registry)
  {
    hide AfterRows, DefaultError, ErrorOverride;
    forall c | c in errors
      ensures var d := registry[ERROR_PREFIX + c];
              && d.id == ERROR_PREFIX + c && d.severity.Error?
              && d.precedence < WARNING_PRECEDENCE && d.exitCode in {EXIT_POLICY, EXIT_INVOCATION}
    {
      AfterRowsIsError(c, rows);
    }
    forall id | id in registry
      ensures || (exists c :: c in errors && id == ERROR_PREFIX + c)
              || (exists c :: c in warnings && id == WARNING_PREFIX + c)
    {
      if HasPrefix(id, ERROR_PREFIX) {
        assert id == ERROR_PREFIX + id[|ERROR_PREFIX|..];
      } else {
        assert id == WARNING_PREFIX + id[|WARNING_PREFIX|..];
      }
    }
  }

  lemma BuiltRow(registry: Registry, errors: seq<string>, warnings: seq<string>, rows: seq<Override>, row: Override,
                 after: Registry)
    requires Built(registry, errors, warnings, rows) && RowApplied(registry, row, row.categories, after)
    ensures Built(after, errors, warnings, rows + [row])
  {
    hide DefaultError, DefaultWarning, Coherent, ErrorIdsAreErrors, HasPrefix, Overridden;
    assert Init(rows + [row]) == rows;
    forall c
      ensures Listed(row.categories, ERROR_PREFIX + c) <==> c in row.categories
      ensures !Listed(row.categories, WARNING_PREFIX + c)
    {
      forall d
        ensures ERROR_PREFIX + d == ERROR_PREFIX + c <==> c == d
        ensures ERROR_PREFIX + d != WARNING_PREFIX + c
      {
        PrefixedIDs(d, c);
      }
    }
  }

  /** The mutable table `buildRegistry` fills; `panicked` records a duplicate or unregistered entry. */
  class RegistryBuilder {
    var definitions: Registry
    var panicked: bool

    constructor ()
      ensures definitions == map[] && !panicked
    {
      definitions, panicked := map[], false;
    }

    method Register(definition: Definition)
      modifies this
      ensures panicked <==> old(panicked) || definition.id in old(definitions)
      ensures definitions == if panicked then old(definitions) else old(definitions)[definition.id := definition]
    {
      if panicked || definition.id in definitions {
        panicked := true;
      } else {
        definitions := definitions[definition.id := definition];
      }
    }

    /** `set` and `setPrecedence`. */
    method Apply(row: Override)
      modifies this
      ensures panicked <==> old(panicked) || ApplyRow(old(definitions), row, row.categories).None?
      ensures !panicked ==> Some(definitions) == ApplyRow(old(definitions), row, row.categories)
    {
      for i := 0 to |row.categories|
        invariant panicked <==> old(panicked) || ApplyRow(old(definitions), row, row.categories[..i]).None?
        invariant !panicked ==> Some(definitions) == ApplyRow(old(definitions), row, row.categories[..i])
      {
        assert Init(row.categories[..i + 1]) == row.categories[..i];
        var id := ERROR_PREFIX + row.categories[i];
        if panicked || id !in definitions {
          panicked := true;
        } else {
          definitions := definitions[id := Overridden(definitions[id], row)];
        }
      }
      assert row.categories[..|row.categories|] == row.categories;
    }

    /** Registers every category with its default, then applies the override rows in order. It panics exactly on a
        repeated category or a row that overrides an unlisted one. */
    method BuildRegistry(errors: seq<string>, warnings: seq<string>, rows: seq<Override>)
      requires definitions == map[] && !panicked
      requires forall row :: row in rows ==> ErrorOverride(row)
      modifies this
      ensures panicked <==> Repeats(errors) || Repeats(warnings) || Unregistered(errors, rows)
      ensures !panicked ==> Built(definitions, errors, warnings, rows)
      ensures !panicked ==> Coherent(definitions) && ErrorIdsAreErrors(definitions)
    {
      hide Built, DefaultError, DefaultWarning, ErrorOverride;
      NothingBuilt();
      for i := 0 to |errors|
        invariant panicked <==> Repeats(errors[..i])
        invariant !panicked ==> Built(definitions, errors[..i], [], [])
      {
        TakeNext(errors, i);
        RepeatsNext(errors, i);
        if !panicked {
          BuiltMembers(definitions, errors[..i], [], [], errors[i]);
          if errors[i] !in errors[..i] {
            BuiltError(definitions, errors[..i], errors[i]);
          }
        }
        Register(DefaultError(errors[i]));
      }
      assert errors[..|errors|] == errors;
      for i := 0 to |warnings|
        invariant panicked <==> Repeats(errors) || Repeats(warnings[..i])
        invariant !panicked ==> Built(definitions, errors, warnings[..i], [])
      {
        TakeNext(warnings, i);
        RepeatsNext(warnings, i);
        if !panicked {
          BuiltMembers(definitions, errors, warnings[..i], [], warnings[i]);
          if warnings[i] !in warnings[..i] {
            BuiltWarning(definitions, errors, warnings[..i], warnings[i]);
          }
        }
        Register(DefaultWarning(warnings[i]));
      }
      assert warnings[..|warnings|] == warnings;
      for i := 0 to |rows|
        invariant panicked <==> Repeats(errors) || Repeats(warnings) || Unregistered(errors, rows[..i])
        invariant !panicked ==> Built(definitions, errors, warnings, rows[..i])
      {
        TakeNext(rows, i);
        UnregisteredNext(errors, rows, i);
        ghost var before := definitions;
        if !panicked {
          BuiltIsCoherent(definitions, errors, warnings, rows[..i]);
          ApplyRowKeepsCoherent(definitions, rows[i], rows[i].categories);
          PanicsOnUnlisted(definitions, errors, warnings, rows[..i], rows[i].categories);
        }
        Apply(rows[i]);
        if !panicked {
          BuiltRow(before, errors, warnings, rows[..i], rows[i], definitions);
        }
      }
      assert rows[..|rows|] == rows;
      if !panicked {
        BuiltIsCoherent(definitions, errors, warnings, rows);
      }
    }
  }

  lemma NothingBuilt()
    ensures Built(map[], [], [], [])
  {
  }

  lemma BuiltMembers(registry: Registry, errors: seq<string>, warnings: seq<string>, rows: seq<Override>, c: string)
    requires Built(registry, errors, warnings, rows)
    ensures ERROR_PREFIX + c in registry <==> c in errors
    ensures WARNING_PREFIX + c in registry <==> c in warnings
  {
  }

  lemma PanicsOnUnlisted(registry: Registry, errors: seq<string>, warnings: seq<string>, rows: seq<Override>,
                         categories: seq<string>)
    requires Built(registry, errors, warnings, rows)
    ensures (exists c :: c in categories && ERROR_PREFIX + c !in registry) <==>
            exists c :: c in categories && c !in errors
  {
  }

  lemma RepeatsNext(s: seq<string>, i: nat)
    requires i < |s|
    ensures Repeats(s[..i + 1]) <==> Repeats(s[..i]) || s[i] in s[..i]
  {
    var before, after := s[..i], s[..i + 1];
    assert forall j :: 0 <= j < i ==> before[j] == after[j];
  }

  lemma UnregisteredNext(errors: seq<string>, rows: seq<Override>, i: nat)
    requires i < |rows|
    ensures Unregistered(errors, rows[..i + 1]) <==>
            Unregistered(errors, rows[..i]) || exists c :: c in rows[i].categories && c !in errors
  {
    var before, after := rows[..i], rows[..i + 1];
    assert forall j :: 0 <= j < i ==> before[j] == after[j];
  }

  // ---- Reports.

  /** The comparable content of a diagnostic; the remaining members only reach its canonical form. */
  datatype Diagnostic = Diagnostic(id: string, severity: Severity, category: string, check: bytes, message: bytes,
                                   field: string, actual: Option<string>, other: string)

  /** The optional metadata; a package manifest only by its canonical form. */
  datatype Metadata = Metadata(packageManifest: Option<string>, publishNpmVersion: Option<string>)

  /** What the model leaves to libraries: the canonical form of a diagnostic, and the secrecy and RFC 8785
      checks of its optional members and of a package manifest. `actual` is already canonical. */
  datatype Library = Library(canonical: Diagnostic -> string, safe: Diagnostic -> bool, safeManifest: string -> bool)

  datatype Contract = Contract(registry: Registry, library: Library)

  datatype Outcome = Pass | Fail

  const SCHEMA_VERSION := "1"

  /** A report as decoded; `isNull` says that its diagnostics array was null, which is not the empty array. */
  datatype Report = Report(schemaVersion: string, result: Outcome, exitCode: nat, primary: Option<string>,
                           runInvocation: Option<string>, isNull: bool, diagnostics: seq<Diagnostic>,
                           metadata: Option<Metadata>)

  predicate PlainNumber(s: string) {
    s != "" && (forall i :: 0 <= i < |s| ==> '0' <= s[i] <= '9') && (|s| > 1 ==> s[0] != '0')
  }

  /** An exact three-part version without prerelease or build. */
  predicate ExactVersion(s: string) {
    |Split(s, '.')| == 3 && forall part :: part in Split(s, '.') ==> PlainNumber(part)
  }

  predicate ValidMetadata(k: Contract, metadata: Option<Metadata>) {
    metadata.Some? ==>
      var m := metadata.value;
      && (m.packageManifest.Some? || m.publishNpmVersion.Some?)
      && (m.publishNpmVersion.Some? ==> ExactVersion(m.publishNpmVersion.value))
      && (m.packageManifest.Some? ==> k.library.safeManifest(m.packageManifest.value))
  }

  /** A text that a report accepts as check or message. */
  predicate Reportable(text: bytes) {
    text != [] && ValidUtf8(text)
  }

  predicate ValidDiagnostic(k: Contract, d: Diagnostic) {
    && d.id in k.registry
    && d.severity == k.registry[d.id].severity && d.category == k.registry[d.id].category
    && Reportable(d.check) && Reportable(d.message)
    && k.library.safe(d)
  }

  function NewDiagnostic(k: Contract, id: string, check: bytes, message: bytes): Diagnostic
    requires id in k.registry
  {
    Diagnostic(id, k.registry[id].severity, k.registry[id].category, check, message, "", None, "")
  }

  /** `New`: a diagnostic that agrees with the registry, unless it could not be reported. */
  method New(k: Contract, id: string, check: bytes, message: bytes) returns (d: Option<Diagnostic>)
    ensures d.Some? <==>
            && id in k.registry && Reportable(check) && Reportable(message)
            && k.library.safe(NewDiagnostic(k, id, check, message))
    ensures d.Some? ==> d.value == NewDiagnostic(k, id, check, message) && ValidDiagnostic(k, d.value)
  {
    hide ValidUtf8;
    if id !in k.registry {
      return None;
    }
    var diagnostic := NewDiagnostic(k, id, check, message);
    d := if ValidDiagnostic(k, diagnostic) then Some(diagnostic) else None;
  }

  /** What `diagnosticLess` compares, in order. */
  datatype Key = Key(precedence: nat, id: string, field: string, actual: string, canonical: string)

  function KeyOf(k: Contract, d: Diagnostic): Key {
    Key(if d.id in k.registry then k.registry[d.id].precedence else 0,
        d.id, d.field, if d.actual.None? then "" else d.actual.value, k.library.canonical(d))
  }

  predicate KeyBelow(a: Key, b: Key) {
    if a.precedence != b.precedence then a.precedence < b.precedence
    else if a.id != b.id then Below(a.id, b.id)
    else if a.field != b.field then Below(a.field, b.field)
    else if a.actual != b.actual then Below(a.actual, b.actual)
    else Below(a.canonical, b.canonical)
  }

  predicate DiagnosticLess(k: Contract, a: Diagnostic, b: Diagnostic) {
    KeyBelow(KeyOf(k, a), KeyOf(k, b))
  }

  function LessOf(k: Contract): (Diagnostic, Diagnostic) -> bool {
    (a, b) => DiagnosticLess(k, a, b)
  }

  lemma KeyBelowIsTotalOrder()
    ensures StrictTotalOrder(KeyBelow)
  {
    BelowIsTotalOrder();
  }

  /** The comparison is a strict weak order, and tied diagnostics agree on everything it looks at. */
  lemma DiagnosticLessIsWeakOrder(k: Contract)
    ensures StrictWeakOrder(LessOf(k))
    ensures forall a, b :: !DiagnosticLess(k, a, b) && !DiagnosticLess(k, b, a) ==>
                             a.id == b.id && k.library.canonical(a) == k.library.canonical(b)
  {
    KeyBelowIsTotalOrder();
    forall a, b | !DiagnosticLess(k, a, b) && !DiagnosticLess(k, b, a)
      ensures KeyOf(k, a) == KeyOf(k, b)
    {
    }
  }

  /** The first error in report order. */
  function FirstError(k: Contract, ds: seq<Diagnostic>): (first: Option<Diagnostic>)
    requires forall d :: d in ds ==> d.id in k.registry
    ensures first.Some? ==> first.value in ds && k.registry[first.value.id].severity.Error?
    ensures first.None? ==> forall d :: d in ds ==> k.registry[d.id].severity.Warning?
  {
    if ds == [] then None
    else if k.registry[ds[0].id].severity.Error? then Some(ds[0])
    else FirstError(k, ds[1..])
  }

  /** The closed report contract: ordered valid diagnostics and the fields derived from them. */
  ghost predicate Valid(k: Contract, r: Report) {
    && r.schemaVersion == SCHEMA_VERSION && !r.isNull && r.runInvocation != Some("") && ValidMetadata(k, r.metadata)
    && (forall d :: d in r.diagnostics ==> ValidDiagnostic(k, d))
    && SortedBy(LessOf(k), r.diagnostics)
    && match FirstError(k, r.diagnostics)
       case None => r.result == Pass && r.exitCode == EXIT_PASS && r.primary == None
       case Some(d) => r.result == Fail && r.exitCode == k.registry[d.id].exitCode && r.primary == Some(d.id)
  }

  /** `Report.Validate`: only neighbours are compared. */
  method Validate(k: Contract, r: Report) returns (ok: bool)
    ensures ok <==> Valid(k, r)
  {
    if r.schemaVersion != SCHEMA_VERSION || r.isNull || r.runInvocation == Some("") {
      return false;
    }
    hide StrictWeakOrder, KeyOf, KeyBelow;
    DiagnosticLessIsWeakOrder(k);
    var ds := r.diagnostics;
    for i := 0 to |ds|
      invariant forall d :: d in ds[..i] ==> ValidDiagnostic(k, d)
      invariant SortedBy(LessOf(k), ds[..i])
    {
      TakeNext(ds, i);
      if !ValidDiagnostic(k, ds[i]) || (i > 0 && DiagnosticLess(k, ds[i], ds[i - 1])) {
        assert ds[i] in ds && (i > 0 ==> ds[i - 1] in ds);
        assert i > 0 ==> LessOf(k)(ds[i], ds[i - 1]) == DiagnosticLess(k, ds[i], ds[i - 1]);
        return false;
      }
      SortedSnoc(LessOf(k), ds[..i], ds[i]);
    }
    assert ds[..|ds|] == ds;
    if !ValidMetadata(k, r.metadata) {
      return false;
    }
    var first := FindFirstError(k, ds);
    ok := if first.None? then r.result == Pass && r.exitCode == EXIT_PASS && r.primary == None
    else r.result == Fail && r.exitCode == k.registry[first.value.id].exitCode && r.primary == Some(first.value.id);
  }

  method FindFirstError(k: Contract, ds: seq<Diagnostic>) returns (first: Option<Diagnostic>)
    requires forall d :: d in ds ==> d.id in k.registry
    ensures first == FirstError(k, ds)
  {
    for i := 0 to |ds|
      invariant FirstError(k, ds) == FirstError(k, ds[i..])
    {
      assert ds[i] in ds;
      if k.registry[ds[i].id].severity.Error? {
        return Some(ds[i]);
      }
      assert ds[i..][1..] == ds[i + 1..];
    }
    first := None;
  }

  lemma SortedSnoc<T(!new)>(less: (T, T) -> bool, s: seq<T>, x: T)
    requires StrictWeakOrder(less) && SortedBy(less, s)
    requires s != [] ==> !less(x, Last(s))
    ensures SortedBy(less, s + [x])
  {
    forall i | 0 <= i < |s|
      ensures !less(x, s[i])
    {
      if i < |s| - 1 {
        assert !less(Last(s), s[i]);
      }
    }
  }

  /** Validates, orders, and derives the report; its own final validation can never fail. */
  method Build(k: Contract, runInvocation: Option<string>, diagnostics: seq<Diagnostic>, metadata: Option<Metadata>)
    returns (report: Option<Report>)
    ensures report.Some? <==>
            && runInvocation != Some("") && ValidMetadata(k, metadata)
            && forall d :: d in diagnostics ==> ValidDiagnostic(k, d)
    ensures report.Some? ==>
              && Valid(k, report.value)
              && report.value.runInvocation == runInvocation && report.value.metadata == metadata
              && multiset(report.value.diagnostics) == multiset(diagnostics)
  {
    for i := 0 to |diagnostics|
      invariant forall d :: d in diagnostics[..i] ==> ValidDiagnostic(k, d)
    {
      TakeNext(diagnostics, i);
      if !ValidDiagnostic(k, diagnostics[i]) {
        assert diagnostics[i] in diagnostics;
        return None;
      }
    }
    assert diagnostics[..|diagnostics|] == diagnostics;
    if !ValidMetadata(k, metadata) || runInvocation == Some("") {
      return None;
    }
    DiagnosticLessIsWeakOrder(k);
    var ordered := Sort(LessOf(k), diagnostics);
    SameMembers(ordered, diagnostics);
    var built := Report(SCHEMA_VERSION, Pass, EXIT_PASS, None, runInvocation, false, ordered, metadata);
    var first := FindFirstError(k, ordered);
    if first.Some? {
      built := built.(result := Fail, primary := Some(first.value.id), exitCode := k.registry[first.value.id].exitCode);
    }
    var valid := Validate(k, built);
    assert valid;
    if !valid {
      return None;
    }
    report := Some(built);
  }

  lemma SameMembers<T>(a: seq<T>, b: seq<T>)
    requires multiset(a) == multiset(b)
    ensures forall x :: x in a <==> x in b
  {
    assert forall x :: (x in a <==> x in multiset(a)) && (x in b <==> x in multiset(b));
  }

  /** Errors come first: a report fails exactly when its first entry is an error, and then carries that entry. */
  lemma FailsIffFirstIsError(k: Contract, r: Report)
    requires Coherent(k.registry) && Valid(k, r)
    ensures r.result == Fail <==> r.diagnostics != [] && r.diagnostics[0].severity.Error?
    ensures r.result == Fail ==>
              && r.primary == Some(r.diagnostics[0].id) && r.diagnostics[0].id in k.registry
              && r.exitCode == k.registry[r.diagnostics[0].id].exitCode != EXIT_PASS
    ensures r.result == Pass ==> r.exitCode == EXIT_PASS && r.primary == None
  {
    var ds := r.diagnostics;
    assert ds != [] ==> ds[0] in ds;
    if ds != [] && ds[0].severity.Warning? {
      forall d | d in ds
        ensures k.registry[d.id].severity.Warning?
      {
        var i :| 0 <= i < |ds| && ds[i] == d;
        assert i > 0 ==> !LessOf(k)(ds[i], ds[0]);
      }
    }
  }

  lemma {:induction false} FirstErrorIsEarliest(k: Contract, ds: seq<Diagnostic>, j: nat) returns (i: nat)
    requires forall d :: d in ds ==> d.id in k.registry
    requires j < |ds| && k.registry[ds[j].id].severity.Error?
    ensures i <= j && FirstError(k, ds) == Some(ds[i])
  {
    if k.registry[ds[0].id].severity.Error? {
      return 0;
    }
    i := FirstErrorIsEarliest(k, ds[1..], j - 1);
    i := i + 1;
  }

  /** Of two entries the first has the smaller precedence; of the same precedence, the smaller ID; of the same ID, the
      smaller field; of the same field, the smaller actual value; and then the smaller canonical form. */
  lemma EntriesInOrder(k: Contract, r: Report, i: nat, j: nat)
    requires Valid(k, r) && i < j < |r.diagnostics|
    ensures r.diagnostics[i].id in k.registry && r.diagnostics[j].id in k.registry
    ensures var a, b := r.diagnostics[i], r.diagnostics[j];
            var p, q := k.registry[a.id].precedence, k.registry[b.id].precedence;
            && p <= q
            && (p == q ==> !Below(b.id, a.id))
            && (a.id == b.id ==> !Below(b.field, a.field))
            && (a.id == b.id && a.field == b.field ==>
                  var x := if a.actual.Some? then a.actual.value else "";
                  var y := if b.actual.Some? then b.actual.value else "";
                  !Below(y, x) && (x == y ==> !Below(k.library.canonical(b), k.library.canonical(a))))
  {
    hide Below, KeyBelow, FirstError;
    var a, b := r.diagnostics[i], r.diagnostics[j];
    assert a in r.diagnostics && b in r.diagnostics && !LessOf(k)(b, a);
    KeysInOrder(KeyOf(k, a), KeyOf(k, b));
  }

  lemma KeysInOrder(a: Key, b: Key)
    requires !KeyBelow(b, a)
    ensures a.precedence <= b.precedence && (a.precedence == b.precedence ==> !Below(b.id, a.id))
    ensures a.precedence == b.precedence && a.id == b.id ==>
              && !Below(b.field, a.field)
              && (a.field == b.field ==>
                    !Below(b.actual, a.actual) && (a.actual == b.actual ==> !Below(b.canonical, a.canonical)))
  {
    hide Below;
    BelowIsAsymmetric(a.id, a.id);
    BelowIsAsymmetric(a.field, a.field);
    BelowIsAsymmetric(a.actual, a.actual);
  }

  /** The primary diagnostic is the error of least precedence, and among those of least ID. */
  lemma PrimaryIsLeast(k: Contract, r: Report, d: Diagnostic)
    requires Valid(k, r) && d in r.diagnostics && d.id in k.registry && k.registry[d.id].severity.Error?
    ensures r.result == Fail && r.primary.Some? && r.primary.value in k.registry
    ensures var p, q := k.registry[r.primary.value].precedence, k.registry[d.id].precedence;
            p <= q && (p == q ==> !Below(d.id, r.primary.value))
  {
    hide ValidDiagnostic, KeyOf, KeyBelow;
    var j :| 0 <= j < |r.diagnostics| && r.diagnostics[j] == d;
    AllRegistered(k, r.diagnostics);
    var i := FirstErrorIsEarliest(k, r.diagnostics, j);
    if i < j {
      EntriesInOrder(k, r, i, j);
    } else {
      BelowIsAsymmetric(d.id, d.id);
    }
  }

  lemma AllRegistered(k: Contract, ds: seq<Diagnostic>)
    requires forall d :: d in ds ==> ValidDiagnostic(k, d)
    ensures forall d :: d in ds ==> d.id in k.registry
  {
  }

  /** The bytes of a report: its derived fields and the canonical form of each entry in order. */
  datatype CanonicalReport = CanonicalReport(schemaVersion: string, result: Outcome, exitCode: nat,
                                             primary: Option<string>, runInvocation: Option<string>,
                                             entries: seq<string>, metadata: Option<Metadata>)

  function Canonical(k: Contract, r: Report): CanonicalReport {
    CanonicalReport(r.schemaVersion, r.result, r.exitCode, r.primary, r.runInvocation,
                    seq(|r.diagnostics|, i requires 0 <= i < |r.diagnostics| => k.library.canonical(r.diagnostics[i])),
                    r.metadata)
  }

  function Keys(k: Contract, ds: seq<Diagnostic>): (keys: seq<Key>)
    ensures |keys| == |ds| && forall i :: 0 <= i < |ds| ==> keys[i] == KeyOf(k, ds[i])
  {
    seq(|ds|, i requires 0 <= i < |ds| => KeyOf(k, ds[i]))
  }

  /** The multiset of keys depends only on the multiset of diagnostics. */
  lemma {:induction false} KeysOfPermutation(k: Contract, a: seq<Diagnostic>, b: seq<Diagnostic>)
    requires multiset(a) == multiset(b)
    ensures multiset(Keys(k, a)) == multiset(Keys(k, b))
    decreases |a|
  {
    assert |multiset(a)| == |a| && |multiset(b)| == |b|;
    if a != [] {
      SameMembers(a, b);
      assert a[0] in a;
      var i :| 0 <= i < |b| && b[i] == a[0];
      RemoveAt(a, 0);
      RemoveAt(b, i);
      KeysOfPermutation(k, Without(a, 0), Without(b, i));
      KeysWithout(k, a, 0);
      KeysWithout(k, b, i);
      RemoveAt(Keys(k, a), 0);
      RemoveAt(Keys(k, b), i);
    }
  }

  function Without<T>(s: seq<T>, i: nat): seq<T>
    requires i < |s|
  {
    s[..i] + s[i + 1..]
  }

  lemma RemoveAt<T>(s: seq<T>, i: nat)
    requires i < |s|
    ensures multiset(s) == multiset(Without(s, i)) + multiset{s[i]}
    ensures multiset(Without(s, i)) == multiset(s) - multiset{s[i]}
  {
    assert s == s[..i] + [s[i]] + s[i + 1..];
  }

  lemma KeysWithout(k: Contract, ds: seq<Diagnostic>, i: nat)
    requires i < |ds|
    ensures Keys(k, Without(ds, i)) == Without(Keys(k, ds), i)
  {
    hide KeyOf;
  }

  lemma {:induction false} FirstErrorOfEqualIds(k: Contract, a: seq<Diagnostic>, b: seq<Diagnostic>)
    requires forall d :: d in a || d in b ==> d.id in k.registry
    requires |a| == |b| && forall i :: 0 <= i < |a| ==> a[i].id == b[i].id
    ensures FirstError(k, a).None? <==> FirstError(k, b).None?
    ensures FirstError(k, a).Some? ==> FirstError(k, a).value.id == FirstError(k, b).value.id
  {
    if a != [] {
      FirstErrorOfEqualIds(k, a[1..], b[1..]);
    }
  }

  /** The canonical report depends only on which diagnostics went in, not on their order or the sort. */
  lemma ReportIsDeterministic(k: Contract, r: Report, r': Report)
    requires Valid(k, r) && Valid(k, r')
    requires r.runInvocation == r'.runInvocation && r.metadata == r'.metadata
    requires multiset(r.diagnostics) == multiset(r'.diagnostics)
    ensures Canonical(k, r) == Canonical(k, r')
  {
    hide KeyBelow, StrictTotalOrder, SortedBy, Canonical, Keys, FirstError;
    var a, b := r.diagnostics, r'.diagnostics;
    KeysOfPermutation(k, a, b);
    KeyBelowIsTotalOrder();
    KeysAreSorted(k, a);
    KeysAreSorted(k, b);
    SortedIsUnique(KeyBelow, Keys(k, a), Keys(k, b));
    CanonicalFollowsKeys(k, r, r');
  }

  lemma CanonicalFollowsKeys(k: Contract, r: Report, r': Report)
    requires Valid(k, r) && Valid(k, r')
    requires r.runInvocation == r'.runInvocation && r.metadata == r'.metadata
    requires Keys(k, r.diagnostics) == Keys(k, r'.diagnostics)
    ensures Canonical(k, r) == Canonical(k, r')
  {
    hide SortedBy;
    var a, b := r.diagnostics, r'.diagnostics;
    assert forall i :: 0 <= i < |a| ==> KeyOf(k, a[i]) == Keys(k, a)[i] == KeyOf(k, b[i]);
    FirstErrorOfEqualIds(k, a, b);
  }

  lemma KeysAreSorted(k: Contract, ds: seq<Diagnostic>)
    requires SortedBy(LessOf(k), ds)
    ensures SortedBy(KeyBelow, Keys(k, ds))
  {
    forall i, j | 0 <= i < j < |ds|
      ensures !KeyBelow(Keys(k, ds)[j], Keys(k, ds)[i])
    {
      assert !LessOf(k)(ds[j], ds[i]);
    }
  }

  /** One error reported together with warnings is the primary diagnostic. */
  lemma ErrorAmongWarningsIsPrimary(k: Contract, entry: Diagnostic, extra: seq<Diagnostic>, r: Report)
    requires Valid(k, r) && multiset(r.diagnostics) == multiset([entry] + extra)
    requires entry.severity.Error? && forall d :: d in extra ==> d.severity.Warning?
    ensures r.result == Fail && r.primary == Some(entry.id) && r.exitCode == k.registry[entry.id].exitCode
  {
    SameMembers(r.diagnostics, [entry] + extra);
    assert entry in [entry] + extra;
    assert forall d :: d in [entry] + extra <==> d == entry || d in extra;
    var first := FirstError(k, r.diagnostics);
    assert first.Some?;
  }
}
