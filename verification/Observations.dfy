/** Deciding one registry observation of the published version. */
module Observations {
  import opened Text

  const SLSA_PREDICATE_TYPE := "https://slsa.dev/provenance/v1"
  const STATEMENT_TYPE := "https://in-toto.io/Statement/v1"
  const BUILD_TYPE := "https://buildtype.dev/windlass/slsa-builder/js-ts-npm-package/v1"

  datatype State = Committed | Absent | Foreign | Indeterminate

  datatype Subject = Subject(name: string, digests: map<string, string>)

  datatype Statement = Statement(statementType: string, predicateType: string, buildType: string,
                                 invocationID: string, subjects: seq<Subject>)

  /** A bundle that passed full signature and identity-policy verification. */
  datatype Verified = Verified(statement: Statement, runInvocationURI: string)

  datatype Version = Version(integrity: string, tarball: string)

  datatype Attestation = Attestation(predicateType: string, bundle: bytes)

  datatype Observation = Observation(packageExists: bool, version: Option<Version>, found: bool,
                                     attestations: seq<Attestation>, packumentErr: bool, attestationErr: bool)

  /** The deterministic libraries an observation is judged with: the bundle verifier, SRI normalisation, the
      basename of a credential-free https URL, and the run ID of an invocation URI of the source repository. */
  datatype Libraries = Libraries(verify: bytes -> Option<Verified>, normalizeSRI: string -> Option<string>,
                                 tarballBasename: string -> Option<string>, runOf: string -> Option<string>)

  datatype Prepared = Prepared(lib: Libraries, runID: string, attempt: Option<nat>, expectedSRI: string,
                               tarballName: string, subjectName: string, sha256: string, sha512: string)

  datatype Decision = Decision(state: State, terminal: bool, packageAbsent: bool)

  /** The verified bundle describes exactly this run's tarball. */
  predicate MatchesPublishedBundle(p: Prepared, v: Verified) {
    var s := v.statement;
    && v.runInvocationURI != "" && v.runInvocationURI == s.invocationID
    && s.statementType == STATEMENT_TYPE && s.predicateType == SLSA_PREDICATE_TYPE && s.buildType == BUILD_TYPE
    && |s.subjects| == 1
    && p.lib.runOf(v.runInvocationURI) == Some(p.runID)
    && s.subjects[0].name == p.subjectName
    && s.subjects[0].digests == map["sha256" := p.sha256, "sha512" := p.sha512]
  }

  predicate Required(a: Attestation) {
    a.predicateType == SLSA_PREDICATE_TYPE
  }

  predicate Qualifies(p: Prepared, a: Attestation) {
    Required(a) && p.lib.verify(a.bundle).Some? && MatchesPublishedBundle(p, p.lib.verify(a.bundle).value)
  }

  /** A publication found without a mutation counts only for a later attempt of the same run. */
  predicate AttemptCounts(p: Prepared, afterMutation: bool) {
    p.attempt.Some? && (afterMutation || p.attempt.value > 1)
  }

  predicate VersionMatches(p: Prepared, v: Version) {
    p.lib.normalizeSRI(v.integrity) == Some(p.expectedSRI) && p.lib.tarballBasename(v.tarball) == Some(p.tarballName)
  }

  /** An error-free observation of the expected artifact with a qualifying attestation. */
  predicate ShowsOurPublication(p: Prepared, o: Observation) {
    && !o.packumentErr && !o.attestationErr && o.packageExists && o.version.Some?
    && VersionMatches(p, o.version.value)
    && exists a :: a in o.attestations && Qualifies(p, a)
  }

  predicate CleanlyUnpublished(o: Observation) {
    !o.packumentErr && !o.attestationErr && o.packageExists && o.version.None?
  }

  predicate AnyVerified(p: Prepared, atts: seq<Attestation>) {
    exists a :: a in atts && Required(a) && p.lib.verify(a.bundle).Some?
  }

  predicate AnyUnverified(p: Prepared, atts: seq<Attestation>) {
    exists a :: a in atts && Required(a) && p.lib.verify(a.bundle).None?
  }

  /** The verdict, said about the set of attestations rather than by walking the list. */
  function Verdict(p: Prepared, o: Observation, afterMutation: bool, exhausted: bool): Decision {
    if o.packumentErr || o.attestationErr then Decision(Indeterminate, exhausted, false)
    else if !o.packageExists || o.version.None? then
      if afterMutation then Decision(Indeterminate, exhausted, false) else Decision(Absent, true, !o.packageExists)
    else if p.lib.normalizeSRI(o.version.value.integrity).None? then Decision(Indeterminate, exhausted, false)
    else if !VersionMatches(p, o.version.value) then Decision(Foreign, true, false)
    else if AttemptCounts(p, afterMutation) && exists a :: a in o.attestations && Qualifies(p, a) then
      Decision(Committed, true, false)
    else if AnyVerified(p, o.attestations) && !AnyUnverified(p, o.attestations) then Decision(Foreign, true, false)
    else if !exhausted then Decision(Indeterminate, false, false)
    else Decision(if AnyUnverified(p, o.attestations) then Indeterminate else Foreign, true, false)
  }

  method Decide(p: Prepared, o: Observation, afterMutation: bool, exhausted: bool) returns (decision: Decision)
    ensures decision == Verdict(p, o, afterMutation, exhausted)
  {
    if o.packumentErr || o.attestationErr {
      return Decision(Indeterminate, exhausted, false);
    }
    if !o.packageExists {
      if afterMutation {
        return Decision(Indeterminate, exhausted, false);
      }
      return Decision(Absent, true, true);
    }
    if o.version.None? {
      if afterMutation {
        return Decision(Indeterminate, exhausted, false);
      }
      return Decision(Absent, true, false);
    }
    var version := o.version.value;
    var actualSRI := p.lib.normalizeSRI(version.integrity);
    if actualSRI.None? {
      return Decision(Indeterminate, exhausted, false);
    }
    if actualSRI.value != p.expectedSRI || p.lib.tarballBasename(version.tarball) != Some(p.tarballName) {
      return Decision(Foreign, true, false);
    }
    var foundRequired, verifiedForeign, verificationFailed := false, false, false;
    var atts := o.attestations;
    for i := 0 to |atts|
      invariant foundRequired <==> exists a :: a in atts[..i] && Required(a)
      invariant verifiedForeign <==> AnyVerified(p, atts[..i])
      invariant verificationFailed <==> AnyUnverified(p, atts[..i])
      invariant AttemptCounts(p, afterMutation) ==> forall a :: a in atts[..i] ==> !Qualifies(p, a)
    {
      TakeNext(atts, i);
      var candidate := atts[i];
      assert candidate in atts[..i + 1];
      if candidate.predicateType != SLSA_PREDICATE_TYPE {
        continue;
      }
      foundRequired := true;
      var verified := p.lib.verify(candidate.bundle);
      if verified.None? {
        verificationFailed := true;
        continue;
      }
      if MatchesPublishedBundle(p, verified.value) {
        if p.attempt.Some? && (afterMutation || p.attempt.value > 1) {
          assert candidate in atts && Qualifies(p, candidate);
          return Decision(Committed, true, false);
        }
      }
      verifiedForeign := true;
    }
    assert atts[..|atts|] == atts;
    if verifiedForeign && !verificationFailed {
      return Decision(Foreign, true, false);
    }
    if exhausted {
      if !foundRequired && o.found {
        return Decision(Foreign, true, false);
      }
      if foundRequired && verificationFailed {
        return Decision(Indeterminate, true, false);
      }
      return Decision(Foreign, true, false);
    }
    decision := Decision(Indeterminate, false, false);
  }

  /** The order of the attestation list does not matter. */
  lemma VerdictIgnoresOrder(p: Prepared, o: Observation, atts: seq<Attestation>, afterMutation: bool, exhausted: bool)
    requires multiset(atts) == multiset(o.attestations)
    ensures Verdict(p, o.(attestations := atts), afterMutation, exhausted) == Verdict(p, o, afterMutation, exhausted)
  {
    assert forall a :: (a in atts <==> a in multiset(atts)) && (a in o.attestations <==> a in multiset(o.attestations));
  }

  /** Committed means, and needs no more than, a qualifying attestation of the expected artifact. */
  lemma CommittedIffOurs(p: Prepared, o: Observation, afterMutation: bool, exhausted: bool)
    ensures Verdict(p, o, afterMutation, exhausted).state == Committed <==>
            AttemptCounts(p, afterMutation) && ShowsOurPublication(p, o)
  {
  }

  /** A verdict given early is the verdict at the end of the budget. */
  lemma TerminalVerdictIsFinal(p: Prepared, o: Observation, afterMutation: bool)
    requires Verdict(p, o, afterMutation, false).terminal
    ensures Verdict(p, o, afterMutation, true) == Verdict(p, o, afterMutation, false)
    ensures Verdict(p, o, afterMutation, false).state != Indeterminate
  {
  }

  /** What our publication looks like, field by field. */
  lemma OursInFull(p: Prepared, o: Observation)
    ensures ShowsOurPublication(p, o) <==>
            && !o.packumentErr && !o.attestationErr && o.packageExists && o.version.Some?
            && p.lib.normalizeSRI(o.version.value.integrity) == Some(p.expectedSRI)
            && p.lib.tarballBasename(o.version.value.tarball) == Some(p.tarballName)
            && exists a :: && a in o.attestations && a.predicateType == "https://slsa.dev/provenance/v1"
                           && IsOurs(p, p.lib.verify(a.bundle))
  {
    assert forall a :: Qualifies(p, a) <==>
                         a.predicateType == "https://slsa.dev/provenance/v1" && IsOurs(p, p.lib.verify(a.bundle));
  }

  /** A verified bundle of this run, made for this tarball and no other subject. */
  predicate IsOurs(p: Prepared, verified: Option<Verified>) {
    && verified.Some?
    && var v, s := verified.value, verified.value.statement;
       && p.lib.runOf(v.runInvocationURI) == Some(p.runID)
       && v.runInvocationURI == s.invocationID != ""
       && s.statementType == "https://in-toto.io/Statement/v1"
       && s.predicateType == "https://slsa.dev/provenance/v1"
       && s.buildType == "https://buildtype.dev/windlass/slsa-builder/js-ts-npm-package/v1"
       && |s.subjects| == 1 && s.subjects[0].name == p.subjectName
       && s.subjects[0].digests.Keys == {"sha256", "sha512"}
       && s.subjects[0].digests["sha256"] == p.sha256 && s.subjects[0].digests["sha512"] == p.sha512
  }

  /** A version is foreign exactly when it is another artifact, or when its attestations speak against this run: all of
      the required ones verify and none counts, or, at the end, none failed to verify. */
  lemma ForeignIff(p: Prepared, o: Observation, afterMutation: bool, exhausted: bool)
    ensures Verdict(p, o, afterMutation, exhausted).state == Foreign <==>
            && !o.packumentErr && !o.attestationErr && o.packageExists && o.version.Some?
            && p.lib.normalizeSRI(o.version.value.integrity).Some?
            && (|| p.lib.normalizeSRI(o.version.value.integrity) != Some(p.expectedSRI)
                || p.lib.tarballBasename(o.version.value.tarball) != Some(p.tarballName)
                || (&& !(AttemptCounts(p, afterMutation) && ShowsOurPublication(p, o))
                    && (forall a :: a in o.attestations && a.predicateType == "https://slsa.dev/provenance/v1" ==>
                                      p.lib.verify(a.bundle).Some?)
                    && (exhausted || exists a :: a in o.attestations
                                                 && a.predicateType == "https://slsa.dev/provenance/v1")))
    ensures Verdict(p, o, afterMutation, exhausted).state == Foreign ==>
              Verdict(p, o, afterMutation, exhausted).terminal
  {
    assert forall a :: Required(a) <==> a.predicateType == "https://slsa.dev/provenance/v1";
  }

  /** Absence is answered only before a mutation, exactly for an error-free observation without the version. */
  lemma AbsentIff(p: Prepared, o: Observation, afterMutation: bool, exhausted: bool)
    ensures Verdict(p, o, afterMutation, exhausted).state == Absent <==>
            !o.packumentErr && !o.attestationErr && (!o.packageExists || o.version.None?) && !afterMutation
    ensures Verdict(p, o, afterMutation, exhausted).packageAbsent <==>
            !o.packumentErr && !o.attestationErr && !o.packageExists && !afterMutation
  {
  }
}
