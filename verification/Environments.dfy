/** What a publication run asks of the registry, the clock and npm, and the record of what it asked. */
module Environments {
  import opened Text
  import opened Observations

  /** One round of polling: the clock before the registry reads, what they returned, the clock after them, and
      the text of the error if the sleep that follows fails. Nothing is assumed of the clock. */
  datatype Poll = Poll(observedAt: int, observation: Observation, now: int, sleepError: Option<bytes>)

  /** An error from outside: the diagnostic ID it carries, if any, and its text. */
  datatype Cause = Cause(id: Option<string>, text: bytes)

  /** What `npm --version` gives. */
  datatype VersionAnswer = Reported(version: string) | VersionFailed(cause: Cause)

  /** The pinned version, or why it could not be loaded. */
  datatype Pin = Pinned(version: string) | NoPin(cause: Cause)

  /** A request to publish: re-reading the artifacts may fail before npm is started. */
  datatype Npm = NotStarted | Ran(output: string, failed: bool)

  /** All that one run may learn, in the order it asks: a polling phase before and one after the mutation, the answer
      of `npm --version`, and the outcome of every request to publish. `entryError` is the error that prevents a run
      that is not prepared. `lower` is `unicode.ToLower`. */
  datatype World = World(
    prepared: Option<Prepared>, entryError: Cause, runInvocation: Option<string>,
    entryStart: int, entryPolls: seq<Poll>,
    npmVersion: VersionAnswer, pin: Pin,
    publications: nat -> Npm, lower: char -> char,
    readStart: int, readPolls: seq<Poll>)

  datatype Event = Observed(observation: Observation) | VersionChecked | Published

  function ObservedEvents(polls: seq<Poll>): seq<Event> {
    seq(|polls|, i requires 0 <= i < |polls| => Observed(polls[i].observation))
  }

  lemma ObservedNothing(polls: seq<Poll>)
    ensures ObservedEvents(polls[..0]) == []
  {
  }

  lemma ObservedNext(polls: seq<Poll>, i: nat)
    requires i < |polls|
    ensures ObservedEvents(polls[..i + 1]) == ObservedEvents(polls[..i]) + [Observed(polls[i].observation)]
  {
  }

  /** Every sleep is to last 15 seconds, in nanoseconds. */
  predicate EvenSleeps(sleeps: seq<int>) {
    forall i :: 0 <= i < |sleeps| ==> sleeps[i] == 15_000_000_000
  }

  /** The environment of one run. Every call is recorded. */
  class Environment {
    const world: World
    var requests: nat
    ghost var trace: seq<Event>
    /** How long each sleep asked for was to last. */
    ghost var sleeps: seq<int>

    constructor (world: World)
      ensures this.world == world && Fresh()
    {
      this.world := world;
      requests, trace, sleeps := 0, [], [];
    }

    /** Nothing has been asked yet. */
    ghost predicate Fresh()
      reads this
    {
      requests == 0 && trace == [] && sleeps == []
    }

    /** Both registry reads of a round. */
    method Observe(round: Poll) returns (observation: Observation)
      modifies this`trace
      ensures observation == round.observation && trace == old(trace) + [Observed(observation)]
    {
      observation := round.observation;
      trace := trace + [Observed(observation)];
    }

    /** Sleeps after a round; the text of the error when that fails. */
    method Sleep(round: Poll, duration: int) returns (error: Option<bytes>)
      modifies this`sleeps
      ensures error == round.sleepError && sleeps == old(sleeps) + [duration]
    {
      error := round.sleepError;
      sleeps := sleeps + [duration];
    }

    /** Runs `npm --version`. */
    method NpmVersion() returns (version: VersionAnswer)
      modifies this`trace
      ensures version == world.npmVersion && trace == old(trace) + [VersionChecked]
    {
      version := world.npmVersion;
      trace := trace + [VersionChecked];
    }

    /** Asks for a publication; npm is started unless the artifacts changed. */
    method RunNpm() returns (outcome: Npm)
      modifies this`requests, this`trace
      ensures outcome == world.publications(old(requests)) && requests == old(requests) + 1
      ensures trace == old(trace) + if outcome.Ran? then [Published] else []
    {
      outcome := world.publications(requests);
      requests := requests + 1;
      if outcome.Ran? {
        trace := trace + [Published];
      }
    }
  }
}
