/** `classify`: polling the registry until an observation settles the publication. */
module Convergence {
  import opened Text
  import opened Environments
  import opened Observations

  // Nanoseconds, as the source's durations.
  const SECOND := 1_000_000_000
  const POLL_INTERVAL := 15 * SECOND
  const REJECTED_BUDGET := 60 * SECOND
  const POLL_BUDGET := 300 * SECOND

  datatype Run = Run(prepared: Prepared, afterMutation: bool, e422: bool, start: int)

  /** A classification; `error` is the text of a returned error. */
  datatype Classified = Classified(state: State, packageAbsent: bool, committedAfterRejection: bool,
                                   error: Option<bytes>)

  const EXHAUSTED := Ascii("registry polling budget exhausted without authoritative evidence")

  predicate ShowsVersion(o: Observation) {
    !o.packumentErr && o.version.Some?
  }

  predicate ShowsAbsence(run: Run, poll: Poll) {
    && !poll.observation.packumentErr && poll.observation.version.None?
    && poll.observedAt <= run.start + REJECTED_BUDGET
  }

  ghost predicate SawVersion(polls: seq<Poll>, k: nat)
    requires k < |polls|
  {
    exists j :: 0 <= j <= k && ShowsVersion(polls[j].observation)
  }

  ghost predicate SawAbsence(run: Run, polls: seq<Poll>, k: nat)
    requires k < |polls|
  {
    exists j :: 0 <= j <= k && ShowsAbsence(run, polls[j])
  }

  /** Poll `k` is the first to end at or after the reduced deadline of a rejected mutation. */
  ghost predicate ReducedBudgetEnds(run: Run, polls: seq<Poll>, k: nat)
    requires k < |polls|
  {
    && run.afterMutation && run.e422
    && polls[k].now >= run.start + REJECTED_BUDGET
    && forall j :: 0 <= j < k ==> polls[j].now < run.start + REJECTED_BUDGET
  }

  /** What poll `k` answers, when every earlier poll went on; None when it goes on too. */
  ghost function Answer(run: Run, polls: seq<Poll>, k: nat): Option<Classified>
    requires k < |polls|
  {
    var poll := polls[k];
    var v := Verdict(run.prepared, poll.observation, run.afterMutation, false);
    var last := Verdict(run.prepared, poll.observation, run.afterMutation, true);
    var late := run.e422 && SawVersion(polls, k);
    if v.terminal then Some(Classified(v.state, v.packageAbsent, late, None))
    else if ReducedBudgetEnds(run, polls, k) && !SawVersion(polls, k) && SawAbsence(run, polls, k) then
      Some(Classified(Absent, false, late, None))
    else if poll.now >= run.start + POLL_BUDGET then
      Some(Classified(last.state, last.packageAbsent, late,
                      if last.state == Indeterminate then Some(EXHAUSTED) else None))
    else if poll.sleepError.Some? then Some(Classified(Indeterminate, false, late, poll.sleepError))
    else None
  }

  /** The run ends at poll `k` with `c`. */
  ghost predicate Ends(run: Run, polls: seq<Poll>, k: nat, c: Classified) {
    && k < |polls|
    && Answer(run, polls, k) == Some(c)
    && forall j :: 0 <= j < k ==> Answer(run, polls, j).None?
  }

  /** No poll answers: the run is still polling when the given rounds are used up. */
  ghost predicate Undecided(run: Run, polls: seq<Poll>) {
    forall j :: 0 <= j < |polls| ==> Answer(run, polls, j).None?
  }

  /** How many rounds are observed: up to the one that answers, or all of them. */
  ghost function Rounds(run: Run, polls: seq<Poll>): (n: nat)
    ensures n <= |polls|
  {
    if exists k: nat, c :: Ends(run, polls, k, c) then
      var k: nat, c :| Ends(run, polls, k, c);
      k + 1
    else |polls|
  }

  /** A run ends at one poll only and with one answer, so how it ends is decided by what it is told. */
  lemma EndsOnce(run: Run, polls: seq<Poll>, k: nat, c: Classified, k': nat, c': Classified)
    requires Ends(run, polls, k, c) && Ends(run, polls, k', c')
    ensures k == k' && c == c' && !Undecided(run, polls)
  {
    hide Answer;
  }

  lemma RoundsOfEnding(run: Run, polls: seq<Poll>, k: nat, c: Classified)
    requires Ends(run, polls, k, c)
    ensures Rounds(run, polls) == k + 1
  {
    hide Ends;
    var k': nat, c' :| Ends(run, polls, k', c') && Rounds(run, polls) == k' + 1;
    EndsOnce(run, polls, k, c, k', c');
  }

  lemma RoundsOfUndecided(run: Run, polls: seq<Poll>)
    requires Undecided(run, polls)
    ensures Rounds(run, polls) == |polls|
  {
    hide Answer;
  }

  /** Polls until an answer, or until the given rounds of the environment are used up; each round is observed once. */
  method Classify(env: Environment, run: Run, polls: seq<Poll>) returns (answer: Option<Classified>, used: nat)
    modifies env`trace, env`sleeps
    ensures EvenSleeps(old(env.sleeps)) ==> EvenSleeps(env.sleeps)
    ensures |old(env.sleeps)| + used - 1 <= |env.sleeps| <= |old(env.sleeps)| + used
    ensures used == Rounds(run, polls) && env.trace == old(env.trace) + ObservedEvents(polls[..used])
    ensures answer.Some? ==> used > 0 && Ends(run, polls, used - 1, answer.value)
    ensures answer.None? ==> used == |polls| && Undecided(run, polls)
  {
    hide Verdict, Rounds, Ascii, ObservedEvents;
    ObservedNothing(polls);
    var sawVersion, sawCleanAbsence := false, false;
    var deadline := run.start + POLL_BUDGET;
    var reducedDeadline := run.start + REJECTED_BUDGET;
    var reduced := run.afterMutation && run.e422;
    NothingAdded(env.trace);
    for i := 0 to |polls|
      invariant env.trace == old(env.trace) + ObservedEvents(polls[..i])
      invariant |env.sleeps| == |old(env.sleeps)| + i && (EvenSleeps(old(env.sleeps)) ==> EvenSleeps(env.sleeps))
      invariant forall j :: 0 <= j < i ==> Answer(run, polls, j).None?
      invariant sawVersion <==> exists j :: 0 <= j < i && ShowsVersion(polls[j].observation)
      invariant reduced <==>
                run.afterMutation && run.e422 && forall j :: 0 <= j < i ==> polls[j].now < reducedDeadline
      invariant reduced ==> (sawCleanAbsence <==> exists j :: 0 <= j < i && ShowsAbsence(run, polls[j]))
    {
      var observedAt := polls[i].observedAt;
      var last := env.Observe(polls[i]);
      ObservedNext(polls, i);
      Assoc(old(env.trace), ObservedEvents(polls[..i]), [Observed(last)]);
      if !last.packumentErr && last.version.Some? {
        sawVersion := true;
      }
      if !last.packumentErr && last.version.None? && reduced && observedAt <= reducedDeadline {
        sawCleanAbsence := true;
      }
      assert ShowsVersion(last) || !ShowsVersion(last);
      assert ShowsAbsence(run, polls[i]) || !ShowsAbsence(run, polls[i]);
      var decision := Decide(run.prepared, last, run.afterMutation, false);
      if decision.terminal {
        answer, used := Some(Classified(decision.state, decision.packageAbsent, run.e422 && sawVersion, None)), i + 1;
        RoundsOfEnding(run, polls, i, answer.value);
        return;
      }
      var now := polls[i].now;
      if reduced && now >= reducedDeadline {
        reduced := false;
        if !sawVersion && sawCleanAbsence {
          answer, used := Some(Classified(Absent, false, run.e422 && sawVersion, None)), i + 1;
          RoundsOfEnding(run, polls, i, answer.value);
          return;
        }
      }
      if now >= deadline {
        var final := Decide(run.prepared, last, run.afterMutation, true);
        answer, used := Some(Classified(final.state, final.packageAbsent, run.e422 && sawVersion,
                                        if final.state == Indeterminate then Some(EXHAUSTED) else None)), i + 1;
        RoundsOfEnding(run, polls, i, answer.value);
        return;
      }
      var failure := env.Sleep(polls[i], POLL_INTERVAL);
      if failure.Some? {
        answer, used := Some(Classified(Indeterminate, false, run.e422 && sawVersion, failure)), i + 1;
        RoundsOfEnding(run, polls, i, answer.value);
        return;
      }
    }
    RoundsOfUndecided(run, polls);
    return None, |polls|;
  }

  // ---- Facts about every run.

  /** An indeterminate state comes with an error and only then. */
  lemma IndeterminateIffError(run: Run, polls: seq<Poll>, k: nat, c: Classified)
    requires Ends(run, polls, k, c)
    ensures c.state == Indeterminate <==> c.error.Some?
    ensures c.error.Some? ==> c.error == Some(EXHAUSTED) || c.error == polls[k].sleepError
  {
    if Verdict(run.prepared, polls[k].observation, run.afterMutation, false).terminal {
      TerminalVerdictIsFinal(run.prepared, polls[k].observation, run.afterMutation);
    }
  }

  /** After a mutation, "absent" is answered exactly when npm reported E422, the reduced budget ends here, the whole
      run never showed the version, and some error-free absence was observed within the reduced window. */
  lemma AbsentAfterMutation(run: Run, polls: seq<Poll>, k: nat, c: Classified)
    requires Ends(run, polls, k, c) && run.afterMutation
    ensures c.state == Absent <==>
            && ReducedBudgetEnds(run, polls, k)
            && (forall j :: 0 <= j <= k ==> !ShowsVersion(polls[j].observation))
            && (exists j :: 0 <= j <= k && ShowsAbsence(run, polls[j]))
    ensures c.state == Absent ==> run.e422 && !c.packageAbsent && !c.committedAfterRejection
  {
    assert SawVersion(polls, k) || forall j :: 0 <= j <= k ==> !ShowsVersion(polls[j].observation);
    if Verdict(run.prepared, polls[k].observation, run.afterMutation, false).terminal {
      assert ShowsVersion(polls[k].observation);
    }
  }

  lemma AbsentNeedsRejection(run: Run, polls: seq<Poll>, k: nat, c: Classified)
    requires Ends(run, polls, k, c) && run.afterMutation
    ensures c.state == Absent ==> run.e422
  {
    AbsentAfterMutation(run, polls, k, c);
  }

  /** Before a mutation the answer follows the last observation alone; "absent" is a clean error-free absence. */
  lemma AbsentBeforeMutation(run: Run, polls: seq<Poll>, k: nat, c: Classified)
    requires Ends(run, polls, k, c) && !run.afterMutation
    ensures c.state == Absent && !c.packageAbsent <==> CleanlyUnpublished(polls[k].observation)
    ensures c.packageAbsent ==> c.state == Absent
  {
  }

  lemma CommittedShowsOurs(run: Run, polls: seq<Poll>, k: nat, c: Classified)
    requires Ends(run, polls, k, c) && c.state == Committed
    ensures ShowsOurPublication(run.prepared, polls[k].observation) && AttemptCounts(run.prepared, run.afterMutation)
    ensures !c.packageAbsent
  {
    CommittedIffOurs(run.prepared, polls[k].observation, run.afterMutation, false);
    CommittedIffOurs(run.prepared, polls[k].observation, run.afterMutation, true);
  }

  /** The warning flag says exactly that npm reported E422 and some observation showed the version. */
  lemma LateCommitFlag(run: Run, polls: seq<Poll>, k: nat, c: Classified)
    requires Ends(run, polls, k, c)
    ensures c.committedAfterRejection <==> run.e422 && exists j :: 0 <= j <= k && ShowsVersion(polls[j].observation)
  {
  }

  /** Polling goes on until 300 seconds are over, unless an observation settles the run, the sleep fails, or, after
      E422, 60 seconds are over and the version has never been seen but its absence has. */
  lemma PollsUntilDeadline(run: Run, polls: seq<Poll>, k: nat, c: Classified)
    requires Ends(run, polls, k, c)
    ensures polls[k].now < run.start + 300_000_000_000 ==>
              || Verdict(run.prepared, polls[k].observation, run.afterMutation, false).terminal
              || polls[k].sleepError.Some?
              || (&& run.afterMutation && run.e422 && polls[k].now >= run.start + 60_000_000_000
                  && (forall j :: 0 <= j <= k ==> !ShowsVersion(polls[j].observation))
                  && exists j :: 0 <= j <= k && ShowsAbsence(run, polls[j])
                                 && polls[j].observedAt <= run.start + 60_000_000_000)
    ensures forall j :: 0 <= j < k ==> polls[j].now < run.start + 300_000_000_000 && polls[j].sleepError.None?
  {
    hide Verdict, Ascii;
    assert Answer(run, polls, k) == Some(c);
    assert SawVersion(polls, k) || forall j :: 0 <= j <= k ==> !ShowsVersion(polls[j].observation);
    forall j | 0 <= j < k
      ensures polls[j].now < run.start + 300_000_000_000 && polls[j].sleepError.None?
    {
      assert Answer(run, polls, j).None?;
    }
  }

  /** A clock that never runs backwards and advances by at least the interval during each sleep. */
  ghost predicate Steady(run: Run, polls: seq<Poll>) {
    && (forall i :: 0 <= i < |polls| ==> polls[i].observedAt <= polls[i].now)
    && (|polls| > 0 ==> run.start <= polls[0].observedAt)
    && (forall i :: 0 < i < |polls| ==> polls[i - 1].now + POLL_INTERVAL <= polls[i].observedAt)
  }

  lemma {:induction false} SteadyClock(run: Run, polls: seq<Poll>, i: nat, j: nat)
    requires Steady(run, polls) && i <= j < |polls|
    ensures polls[i].now + (j - i) * POLL_INTERVAL <= polls[j].now
    ensures run.start + j * POLL_INTERVAL <= polls[j].observedAt
    decreases j, i
  {
    if i < j {
      SteadyClock(run, polls, i, j - 1);
    } else if j > 0 {
      SteadyClock(run, polls, j - 1, j - 1);
    }
  }

  /** On a steady clock a run ends within 21 observations. */
  lemma EndsWithin21(run: Run, polls: seq<Poll>)
    requires Steady(run, polls) && |polls| >= 21
    ensures exists k: nat, c :: k <= 20 && Ends(run, polls, k, c)
  {
    SteadyClock(run, polls, 20, 20);
    assert Answer(run, polls, 20).Some?;
    FirstAnswer(run, polls, 20);
  }

  lemma FirstAnswer(run: Run, polls: seq<Poll>, k: nat)
    requires k < |polls| && Answer(run, polls, k).Some?
    ensures exists j: nat, c :: j <= k && Ends(run, polls, j, c)
  {
    var j := 0;
    while Answer(run, polls, j).None?
      invariant j <= k && forall i :: 0 <= i < j ==> Answer(run, polls, i).None?
      decreases k - j
    {
      j := j + 1;
    }
    assert Ends(run, polls, j, Answer(run, polls, j).value);
  }

  /** After E422, when the version never appears and some observation in the reduced window is a clean absence,
      a steady clock ends the run within 5 observations. */
  lemma RejectedEndsWithin5(run: Run, polls: seq<Poll>, seen: nat)
    requires Steady(run, polls) && |polls| >= 5 && run.afterMutation && run.e422
    requires forall j :: 0 <= j < |polls| ==> !ShowsVersion(polls[j].observation)
    requires seen < |polls| && ShowsAbsence(run, polls[seen])
    ensures exists k: nat, c :: k <= 4 && Ends(run, polls, k, c)
  {
    SteadyClock(run, polls, 4, 4);
    var k: nat := 0;
    while polls[k].now < run.start + REJECTED_BUDGET
      invariant k <= 4 && forall j :: 0 <= j < k ==> polls[j].now < run.start + REJECTED_BUDGET
      decreases 4 - k
    {
      k := k + 1;
    }
    if seen > k {
      SteadyClock(run, polls, k, seen - 1);
      assert false;
    }
    assert SawAbsence(run, polls, k) && !SawVersion(polls, k) && ReducedBudgetEnds(run, polls, k);
    FirstAnswer(run, polls, k);
  }
}
