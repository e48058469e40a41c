/** Which npm output makes the recogniser report which family, said of whole lines and their texts. */
module FailureTemplates {
  import opened Text
  import opened Utf8
  import opened FailurePaths
  import opened FailureFamily
  import opened Recognizer

  const DASH := Ascii(" - ")

  // ---- The message a line carries.

  /** The part of a message npm puts before the text of the registry: the route of the request, or nothing. */
  ghost predicate Routed(route: bytes, message: bytes) {
    if route == [] then !HasPrefix(message, ROUTE)
    else
      exists name :: && route == ROUTE + name + DASH
                     && forall i :: 0 <= i < |name| ==> !HasPrefix((name + DASH + message)[i..], DASH)
  }

  /** The line is an npm error line of at most 2048 bytes with this message, after an optional status 422 and route, and
      before an optional carriage return. */
  ghost predicate CarriesAs(line: bytes, message: bytes, start: bytes, status: bytes, route: bytes, end: bytes) {
    && |line| <= 2048
    && (start == Ascii("npm error ") || start == Ascii("npm err! "))
    && (if status == [] then !HasPrefix(route + message, STATUS_422) else status == STATUS_422)
    && Routed(route, message)
    && (if end == [] then !HasSuffix(line, [13]) else end == [13])
    && line == start + status + route + message + end
  }

  ghost predicate Carries(line: bytes, message: bytes) {
    exists start, status, route, end :: CarriesAs(line, message, start, status, route, end)
  }

  /** The message as the recogniser takes it; None for a line that is cut off or is no npm error line. */
  function MessageOf(line: bytes): Option<bytes> {
    if |line| > MAX_LINE then None
    else
      var rest := NpmMessage(TrimSuffix(line, RETURN));
      if rest.None? then None else Some(Message(rest.value))
  }

  lemma CutAtDash(name: bytes, message: bytes)
    requires forall i :: 0 <= i < |name| ==> !HasPrefix((name + DASH + message)[i..], DASH)
    ensures Cut(name + DASH + message, DASH) == Halves(name, message, true)
  {
    var s := name + DASH + message;
    assert |DASH| == 3;
    hide Ascii;
    assert s[|name|..] == DASH + message && HasPrefix(DASH + message, DASH);
    IndexIsUnique(s, DASH, |name|);
    assert s[..|name|] == name && s[|name| + 3..] == message;
  }

  lemma TrimStatus(status: bytes, tail: bytes)
    requires if status == [] then !HasPrefix(tail, STATUS_422) else status == STATUS_422
    ensures TrimPrefix(status + tail, STATUS_422) == tail
  {
    hide Ascii;
    if status == [] {
      NothingAdded(tail);
    } else {
      assert (status + tail)[..|status|] == status && (status + tail)[|status|..] == tail;
    }
  }

  /** The message after its route has been taken off. */
  function Unrouted(trimmed: bytes): bytes {
    if HasPrefix(trimmed, ROUTE) then Cut(trimmed[|ROUTE|..], DASH).after else trimmed
  }

  lemma RoutedIsUnrouted(route: bytes, message: bytes)
    requires Routed(route, message)
    ensures Unrouted(route + message) == message
  {
    hide Ascii, Cut;
    if route == [] {
      NothingAdded(message);
    } else {
      var name :| route == ROUTE + name + DASH
        && forall i :: 0 <= i < |name| ==> !HasPrefix((name + DASH + message)[i..], DASH);
      CutAtDash(name, message);
      Assoc(ROUTE, name, DASH);
      Assoc(ROUTE, name + DASH, message);
      var after := name + DASH + message;
      assert (ROUTE + after)[..|ROUTE|] == ROUTE && (ROUTE + after)[|ROUTE|..] == after;
    }
  }

  lemma MessageOfParts(message: bytes, status: bytes, route: bytes)
    requires if status == [] then !HasPrefix(route + message, STATUS_422) else status == STATUS_422
    requires Routed(route, message)
    ensures Message(status + route + message) == message
  {
    hide Ascii, Cut, Routed, HasPrefix, TrimPrefix;
    Assoc(status, route, message);
    TrimStatus(status, route + message);
    RoutedIsUnrouted(route, message);
  }

  lemma NpmStarts()
    ensures ERROR_LINE == Ascii("npm error ") && ERR_LINE == Ascii("npm err! ")
    ensures |ERROR_LINE| == 10 && |ERR_LINE| == 9 && ERROR_LINE[7] == 111 && ERR_LINE[7] == 33
  {
  }

  lemma NpmMessageOf(start: bytes, rest: bytes)
    requires start == ERROR_LINE || start == ERR_LINE
    ensures NpmMessage(start + rest) == Some(rest)
  {
    NpmStarts();
    hide Ascii;
    assert (start + rest)[..|start|] == start && (start + rest)[|start|..] == rest;
    OtherAt(ERR_LINE + rest, ERROR_LINE, 7);
  }

  lemma CarriedIsMessage(line: bytes, message: bytes)
    requires Carries(line, message)
    ensures MessageOf(line) == Some(message)
  {
    hide Ascii, Message, NpmMessage, Routed;
    var start, status, route, end :| CarriesAs(line, message, start, status, route, end);
    NpmStarts();
    var rest := status + route + message;
    assert line == start + rest + end;
    assert TrimSuffix(line, RETURN) == start + rest by {
      if end == [] {
        assert start + rest + end == start + rest;
      } else {
        assert line[|line| - 1..] == [13] && line[..|line| - 1] == start + rest;
      }
    }
    NpmMessageOf(start, rest);
    MessageOfParts(message, status, route);
  }

  lemma MessageIsCarried(line: bytes, message: bytes)
    requires MessageOf(line) == Some(message) && message != []
    ensures Carries(line, message)
  {
    hide Ascii, Cut;
    NpmStarts();
    var body := TrimSuffix(line, RETURN);
    var end: bytes := if HasSuffix(line, RETURN) then [13] else [];
    assert line == body + end;
    var rest := NpmMessage(body).value;
    var start := if HasPrefix(body, ERROR_LINE) then ERROR_LINE else ERR_LINE;
    TakeDrop(body, |start|);
    assert body == start + rest;
    var status := if HasPrefix(rest, STATUS_422) then STATUS_422 else [];
    var trimmed := TrimPrefix(rest, STATUS_422);
    assert rest == status + trimmed by { TakeDrop(rest, |status|); }
    var route := RouteOf(trimmed, message);
    assert line == start + status + route + message + end by {
      Assoc(status, route, message);
      Assoc(start, status, route + message);
      Assoc(start + status, route, message);
    }
    assert CarriesAs(line, message, start, status, route, end);
  }

  lemma CutIsFirst(s: bytes)
    ensures var halves := Cut(s, DASH);
            halves.found ==>
              && s == halves.before + DASH + halves.after
              && forall i :: 0 <= i < |halves.before| ==> !HasPrefix(s[i..], DASH)
    ensures !Cut(s, DASH).found ==> Cut(s, DASH).after == []
  {
    hide Ascii;
    var at := IndexOf(s, DASH);
    if at.Some? {
      TakeDrop(s, at.value);
      TakeDrop(s[at.value..], |DASH|);
      DropDrop(s, at.value, |DASH|);
      Assoc(s[..at.value], DASH, s[at.value + |DASH|..]);
    }
  }

  lemma RouteOf(trimmed: bytes, message: bytes) returns (route: bytes)
    requires message != [] && message == Unrouted(trimmed)
    ensures trimmed == route + message && Routed(route, message)
  {
    hide Ascii, Cut;
    if HasPrefix(trimmed, ROUTE) {
      var after := trimmed[|ROUTE|..];
      CutIsFirst(after);
      var name := Cut(after, DASH).before;
      route := ROUTE + name + DASH;
      TakeDrop(trimmed, |ROUTE|);
      Assoc(ROUTE, name, DASH);
      Assoc(ROUTE, name + DASH, message);
    } else {
      route := [];
      NothingAdded(message);
    }
  }

  lemma DropDrop<T>(s: seq<T>, m: nat, n: nat)
    requires m + n <= |s|
    ensures s[m..][n..] == s[m + n..]
  {
  }

  // ---- What the lines of a rejection say.

  /** The wrapper and a body, on one line or on two. */
  ghost predicate Opens(messages: seq<bytes>, body: bytes) {
    messages == [WRAPPER + SPACE + body] || messages == [WRAPPER, body]
  }

  /** A list of complete mismatches that announces more, or that is the last. */
  predicate MoreDetails(details: bytes) {
    HasSuffix(details, COMMA) && AllDetails(details[..|details| - 1])
  }

  predicate LastDetails(details: bytes) {
    !HasSuffix(details, COMMA) && AllDetails(details)
  }

  /** Consecutive messages that lead to the given stage. */
  ghost predicate Leads(messages: seq<bytes>, stage: Stage)
    decreases |messages|
  {
    match stage
    case NoStage => false
    case Body => messages == [WRAPPER]
    case RunnerConclusion => Opens(messages, RUNNER_INTRO)
    case Predicate =>
      || Opens(messages, HEADER)
      || (exists d :: Opens(messages, HEADER + SPACE + d) && MoreDetails(d))
      || (messages != [] && Leads(Init(messages), Predicate) && MoreDetails(Last(messages)))
  }

  /** Consecutive messages that say why npm rejected the publication. */
  ghost predicate Settles(messages: seq<bytes>, family: Family) {
    match family
    case NoFamily => false
    case PredicateMismatch =>
      || (exists d :: Opens(messages, HEADER + SPACE + d) && LastDetails(d))
      || (messages != [] && Leads(Init(messages), Predicate) && LastDetails(Last(messages)))
    case RepositoryMismatch => exists body :: Opens(messages, body) && CompleteRepositoryMismatch(body)
    case PrivateSource => Opens(messages, PRIVATE_SOURCE)
    case UnsupportedRunner =>
      || Opens(messages, RUNNER_INTRO + SPACE + RUNNER_CONCLUSION)
      || (messages != [] && Leads(Init(messages), RunnerConclusion) && Last(messages) == RUNNER_CONCLUSION)
    case MissingClaim => Opens(messages, MISSING_CLAIM)
  }

  /** The family step on the message. */
  function MessageStep(p: Progress, message: bytes): Progress {
    if p.family != NoFamily then p
    else if p.stage == RunnerConclusion && message == RUNNER_CONCLUSION then Progress(UnsupportedRunner, NoStage)
    else if p.stage == Predicate && ObserveDetails(message).Some? then ObserveDetails(message).value
    else if message == WRAPPER then Progress(NoFamily, Body)
    else
      var body := CutPrefix(message, WRAPPER + SPACE);
      if body.Some? then ObserveBody(body.value)
      else if p.stage == Body then ObserveBody(message)
      else Progress(NoFamily, NoStage)
  }

  function RunMessages(p: Progress, messages: seq<bytes>): Progress {
    if messages == [] then p else MessageStep(RunMessages(p, Init(messages)), Last(messages))
  }

  // ---- From messages to the family.

  lemma DetailsStart(text: bytes)
    requires AllDetails(text)
    ensures text != [] && (text[0] == 98 || text[0] == 114)
  {
    hide Ascii, CompletePredicateMismatch;
    var detail := SplitOn(text, SEPARATOR)[0];
    assert detail in SplitOn(text, SEPARATOR) && HasPrefix(text, detail);
    assert BINDINGS[0..] == BINDINGS;
    MismatchHasBinding(detail, 0);
    var i :| 0 <= i < |BINDINGS| && HasPrefix(detail, BINDINGS[i].field);
    StartOfBinding(detail, i);
    assert text[..|detail|][0] == detail[0];
  }

  lemma StartOfBinding(detail: bytes, i: nat)
    requires i < |BINDINGS| && HasPrefix(detail, BINDINGS[i].field)
    ensures detail != [] && (detail[0] == 98 || detail[0] == 114)
  {
    BindingStarts(i);
    hide Ascii;
    assert detail[..|BINDINGS[i].field|][0] == detail[0];
  }

  lemma NoDetails(message: bytes)
    requires message == [] || (message[0] != 98 && message[0] != 114)
    ensures ObserveDetails(message).None?
  {
    hide AllDetails;
    var text := TrimSuffix(message, COMMA);
    assert text != [] ==> text[0] == message[0];
    if AllDetails(text) {
      DetailsStart(text);
    }
  }

  lemma DetailsObserved(d: bytes)
    ensures MoreDetails(d) <==> ObserveDetails(d) == Some(Progress(NoFamily, Predicate))
    ensures LastDetails(d) <==> ObserveDetails(d) == Some(Progress(PredicateMismatch, NoStage))
    ensures ObserveDetails(d).Some? ==> MoreDetails(d) || LastDetails(d)
  {
    hide AllDetails;
  }

  lemma TemplateStarts()
    ensures WRAPPER != [] && WRAPPER[0] == 69 && HEADER != [] && HEADER[0] == 73
    ensures RUNNER_CONCLUSION != [] && RUNNER_CONCLUSION[0] == 79
    ensures RUNNER_INTRO != [] && RUNNER_INTRO[0] == 85 && PRIVATE_SOURCE != [] && PRIVATE_SOURCE[0] == 85
    ensures MISSING_CLAIM != [] && MISSING_CLAIM[0] == 77 && REPOSITORY_INTRO != [] && REPOSITORY_INTRO[0] == 70
  {
    TemplateBytes();
  }

  lemma WrapperStep(p: Progress)
    requires p.family == NoFamily
    ensures MessageStep(p, WRAPPER) == Progress(NoFamily, Body)
  {
    hide Ascii, ObserveBody, ObserveDetails;
    TemplateStarts();
    NoDetails(WRAPPER);
  }

  lemma WrappedStep(p: Progress, body: bytes)
    requires p.family == NoFamily
    ensures MessageStep(p, WRAPPER + SPACE + body) == ObserveBody(body)
  {
    hide Ascii, ObserveBody, ObserveDetails;
    TemplateStarts();
    var whole := WRAPPER + SPACE + body;
    NoDetails(whole);
    assert |whole| > |WRAPPER|;
    assert whole[..|WRAPPER + SPACE|] == WRAPPER + SPACE && whole[|WRAPPER + SPACE|..] == body;
  }

  lemma BodyStep(body: bytes)
    requires body != [] && body[0] != 69
    ensures MessageStep(Progress(NoFamily, Body), body) == ObserveBody(body)
  {
    hide Ascii, ObserveBody;
    TemplateStarts();
    OtherStart(body, WRAPPER + SPACE);
  }

  lemma OpensGives(p: Progress, messages: seq<bytes>, body: bytes)
    requires p.family == NoFamily && Opens(messages, body) && body != [] && body[0] != 69
    ensures RunMessages(p, messages) == ObserveBody(body)
  {
    hide Ascii, ObserveBody, MessageStep;
    if messages == [WRAPPER + SPACE + body] {
      assert Init(messages) == [];
      WrappedStep(p, body);
    } else {
      assert Init(messages) == [WRAPPER] && Init([WRAPPER]) == [];
      assert RunMessages(p, [WRAPPER]) == MessageStep(p, WRAPPER);
      WrapperStep(p);
      BodyStep(body);
    }
  }

  lemma HeaderBody()
    ensures ObserveBody(HEADER) == Progress(NoFamily, Predicate)
  {
  }

  lemma HeadedBody(d: bytes)
    ensures var s := HEADER + SPACE + d;
            && s != [] && s[0] == 73
            && ObserveBody(s) ==
               if ObserveDetails(d).Some? then ObserveDetails(d).value else Progress(NoFamily, NoStage)
  {
    TemplateStarts();
    hide Ascii, ObserveDetails;
    var s := HEADER + SPACE + d;
    assert |s| > |HEADER|;
    assert s[..|HEADER + SPACE|] == HEADER + SPACE && s[|HEADER + SPACE|..] == d;
  }

  lemma RepositoryBody(body: bytes)
    requires CompleteRepositoryMismatch(body)
    ensures body != [] && body[0] == 70 && ObserveBody(body) == Progress(RepositoryMismatch, NoStage)
  {
    TemplateStarts();
    hide Ascii, Cut;
    assert HasPrefix(body, REPOSITORY_INTRO);
    assert body[..|REPOSITORY_INTRO|][0] == body[0];
    OtherStart(body, HEADER + SPACE);
  }

  lemma NoRepository(body: bytes)
    requires body != [] && body[0] != 70
    ensures !CompleteRepositoryMismatch(body)
  {
    TemplateStarts();
    hide Ascii;
    OtherStart(body, REPOSITORY_INTRO);
  }

  lemma PrivateBody()
    ensures ObserveBody(PRIVATE_SOURCE) == Progress(PrivateSource, NoStage)
  {
    TemplateStarts();
    hide Ascii;
    OtherStart(PRIVATE_SOURCE, HEADER + SPACE);
    NoRepository(PRIVATE_SOURCE);
  }

  lemma MissingBody()
    ensures ObserveBody(MISSING_CLAIM) == Progress(MissingClaim, NoStage)
  {
    TemplateStarts();
    hide Ascii, CompleteRepositoryMismatch;
    OtherStart(MISSING_CLAIM, HEADER + SPACE);
    NoRepository(MISSING_CLAIM);
    assert RUNNER_INTRO + SPACE + RUNNER_CONCLUSION != MISSING_CLAIM by {
      assert (RUNNER_INTRO + SPACE + RUNNER_CONCLUSION)[0] == RUNNER_INTRO[0];
    }
  }

  lemma RunnerBodies()
    ensures ObserveBody(RUNNER_INTRO) == Progress(NoFamily, RunnerConclusion)
    ensures ObserveBody(RUNNER_INTRO + SPACE + RUNNER_CONCLUSION) == Progress(UnsupportedRunner, NoStage)
    ensures (RUNNER_INTRO + SPACE + RUNNER_CONCLUSION)[0] == 85
  {
    TemplateStarts();
    hide Ascii, CompleteRepositoryMismatch, Message;
    RunnerMessage([]);
    NothingAdded(RUNNER_INTRO);
    RunnerMessage(SPACE + RUNNER_CONCLUSION);
    Assoc(RUNNER_INTRO, SPACE, RUNNER_CONCLUSION);
  }

  lemma PredicateStep(message: bytes)
    requires ObserveDetails(message).Some?
    ensures MessageStep(Progress(NoFamily, Predicate), message) == ObserveDetails(message).value
  {
    hide Ascii, ObserveDetails, ObserveBody;
  }

  lemma {:induction false} LeadsRun(p: Progress, messages: seq<bytes>, stage: Stage)
    requires p.family == NoFamily && Leads(messages, stage)
    ensures RunMessages(p, messages) == Progress(NoFamily, stage)
    decreases |messages|
  {
    hide Ascii, ObserveBody, MessageStep, ObserveDetails, MoreDetails;
    TemplateStarts();
    match stage
    case Body =>
      assert Init(messages) == [];
      assert RunMessages(p, messages) == MessageStep(p, WRAPPER);
      WrapperStep(p);
    case RunnerConclusion =>
      RunnerBodies();
      OpensGives(p, messages, RUNNER_INTRO);
    case Predicate =>
      if Opens(messages, HEADER) {
        HeaderBody();
        OpensGives(p, messages, HEADER);
      } else if d :| Opens(messages, HEADER + SPACE + d) && MoreDetails(d) {
        HeadedBody(d);
        DetailsObserved(d);
        OpensGives(p, messages, HEADER + SPACE + d);
      } else {
        LeadsRun(p, Init(messages), Predicate);
        DetailsObserved(Last(messages));
        PredicateStep(Last(messages));
      }
  }

  lemma SettlesRun(p: Progress, messages: seq<bytes>, family: Family)
    requires p.family == NoFamily && Settles(messages, family)
    ensures RunMessages(p, messages).family == family
  {
    hide Ascii, ObserveBody, MessageStep, ObserveDetails, LastDetails, Leads, CompleteRepositoryMismatch;
    TemplateStarts();
    match family
    case PredicateMismatch =>
      if d :| Opens(messages, HEADER + SPACE + d) && LastDetails(d) {
        HeadedBody(d);
        DetailsObserved(d);
        OpensGives(p, messages, HEADER + SPACE + d);
      } else {
        LeadsRun(p, Init(messages), Predicate);
        DetailsObserved(Last(messages));
        PredicateStep(Last(messages));
      }
    case RepositoryMismatch =>
      var body :| Opens(messages, body) && CompleteRepositoryMismatch(body);
      RepositoryBody(body);
      OpensGives(p, messages, body);
    case PrivateSource =>
      PrivateBody();
      OpensGives(p, messages, PRIVATE_SOURCE);
    case UnsupportedRunner =>
      RunnerBodies();
      if Opens(messages, RUNNER_INTRO + SPACE + RUNNER_CONCLUSION) {
        OpensGives(p, messages, RUNNER_INTRO + SPACE + RUNNER_CONCLUSION);
      } else {
        LeadsRun(p, Init(messages), RunnerConclusion);
        ConclusionStep();
      }
    case MissingClaim =>
      MissingBody();
      OpensGives(p, messages, MISSING_CLAIM);
  }

  lemma ConclusionStep()
    ensures MessageStep(Progress(NoFamily, RunnerConclusion), RUNNER_CONCLUSION) == Progress(UnsupportedRunner, NoStage)
  {
    hide Ascii, ObserveDetails, ObserveBody;
  }

  // ---- From the family back to messages.

  /** What `q` says of the messages that led to it. */
  ghost predicate Accounts(messages: seq<bytes>, q: Progress) {
    if q.family != NoFamily then Settles(messages, q.family) else q.stage != NoStage ==> Leads(messages, q.stage)
  }

  lemma BodyAccounts(messages: seq<bytes>, body: bytes)
    requires Opens(messages, body)
    ensures Accounts(messages, ObserveBody(body))
  {
    hide Ascii, Opens, ObserveDetails, CompleteRepositoryMismatch, MoreDetails, LastDetails;
    if HasPrefix(body, HEADER + SPACE) {
      var d := TrimPrefix(body, HEADER + SPACE);
      TakeDrop(body, |HEADER + SPACE|);
      assert body == HEADER + SPACE + d;
      DetailsObserved(d);
    }
  }

  lemma StepAccounts(p: Progress, before: seq<bytes>, message: bytes)
    requires p.family == NoFamily && Accounts(before, p)
    ensures Accounts(before + [message], MessageStep(p, message)) || Accounts([message], MessageStep(p, message))
  {
    hide Ascii, ObserveBody, ObserveDetails, MoreDetails, LastDetails, CompleteRepositoryMismatch;
    var after := before + [message];
    assert Init(after) == before && Last(after) == message;
    DetailsObserved(message);
    if p.stage == RunnerConclusion && message == RUNNER_CONCLUSION {
    } else if p.stage == Predicate && ObserveDetails(message).Some? {
    } else if message == WRAPPER {
    } else if HasPrefix(message, WRAPPER + SPACE) {
      var body := message[|WRAPPER + SPACE|..];
      TakeDrop(message, |WRAPPER + SPACE|);
      assert message == WRAPPER + SPACE + body;
      BodyAccounts([message], body);
    } else if p.stage == Body {
      assert after == [WRAPPER, message];
      BodyAccounts(after, message);
    }
  }

  lemma EmptyMessage(p: Progress)
    requires p.family == NoFamily
    ensures MessageStep(p, []) == Progress(NoFamily, NoStage)
  {
    TemplateStarts();
    hide Ascii, ObserveDetails;
    NoDetails([]);
    OtherStart([], WRAPPER + SPACE);
    OtherStart([], HEADER + SPACE);
    OtherStart([], REPOSITORY_INTRO);
  }

  // ---- Lines.

  /** The lines carry these messages, one each. */
  ghost predicate Say(lines: seq<bytes>, messages: seq<bytes>) {
    |lines| == |messages| && forall i :: 0 <= i < |lines| ==> Carries(lines[i], messages[i])
  }

  lemma FieldsKeepProgress(s: Seen, rest: bytes, complete: bool)
    ensures ObserveFields(s, rest, complete).progress == s.progress
  {
    hide Ascii, PathGrammar, GoodCode, HasPrefix, FailureStatus;
  }

  lemma LineStep(s: Seen, line: bytes)
    ensures s.progress.family != NoFamily ==> ObserveCut(s, line).progress.family == s.progress.family
    ensures s.progress.family == NoFamily ==>
              ObserveCut(s, line).progress ==
              if MessageOf(line).Some? then MessageStep(s.progress, MessageOf(line).value)
              else Progress(NoFamily, NoStage)
  {
    hide Ascii, Message, NpmMessage, ObserveFields, ObserveBody, ObserveDetails;
    var complete := |line| <= MAX_LINE;
    var rest := NpmMessage(if complete then TrimSuffix(line, RETURN) else CutLine(line));
    if rest.Some? {
      FamilyIsStable(s.progress, rest.value, complete);
      FieldsKeepProgress(s.(progress := FamilyStep(s.progress, rest.value, complete)), rest.value, complete);
    }
  }

  lemma {:induction false} SaidRuns(before: seq<bytes>, lines: seq<bytes>, messages: seq<bytes>)
    requires Say(lines, messages) && ObserveAll(before + lines).progress.family == NoFamily
    ensures ObserveAll(before).progress.family == NoFamily
    ensures ObserveAll(before + lines).progress == RunMessages(ObserveAll(before).progress, messages)
    decreases |lines|
  {
    hide Observe, MessageStep, Carries;
    if lines == [] {
      NothingAdded(before);
    } else {
      InitLast(lines);
      Assoc(before, Init(lines), [Last(lines)]);
      assert Init(before + lines) == before + Init(lines) && Last(before + lines) == Last(lines);
      LineStep(ObserveAll(before + Init(lines)), Last(lines));
      CarriedIsMessage(Last(lines), Last(messages));
      SaidRuns(before, Init(lines), Init(messages));
    }
  }

  /** One more line with its message, after lines that settled nothing. */
  lemma SaidRunsOn(before: seq<bytes>, lines: seq<bytes>, messages: seq<bytes>)
    requires Say(lines, messages) && lines != [] && ObserveAll(before + Init(lines)).progress.family == NoFamily
    ensures ObserveAll(before).progress.family == NoFamily
    ensures ObserveAll(before + lines).progress == RunMessages(ObserveAll(before).progress, messages)
  {
    hide Observe, MessageStep, Carries;
    SaidRuns(before, Init(lines), Init(messages));
    InitLast(lines);
    Assoc(before, Init(lines), [Last(lines)]);
    assert Init(before + lines) == before + Init(lines) && Last(before + lines) == Last(lines);
    LineStep(ObserveAll(before + Init(lines)), Last(lines));
    CarriedIsMessage(Last(lines), Last(messages));
  }

  /** Whatever state the lines have led to, the last of them say why, unless a family was settled earlier. */
  lemma {:induction false} LinesAccount(lines: seq<bytes>) returns (at: nat, messages: seq<bytes>)
    requires lines == [] || ObserveAll(Init(lines)).progress.family == NoFamily
    ensures at <= |lines| && Say(lines[at..], messages)
    ensures Accounts(messages, ObserveAll(lines).progress)
    ensures ObserveAll(lines).progress != Progress(NoFamily, NoStage) ==> at < |lines|
  {
    hide Observe, MessageStep, Carries, Accounts, Say, ObserveAll, MessageOf;
    if lines == [] {
      NothingObserved();
      NothingSaid([]);
      return 0, [];
    }
    var front, m := Init(lines), MessageOf(Last(lines));
    if m.None? || m.value == [] {
      EmptyAccounts(lines);
      NothingSaid(lines);
      return |lines|, [];
    }
    NoFamilyBefore(front);
    var from, said := LinesAccount(front);
    LineAccounts(lines, from, said, m.value);
    if Say(lines[from..], said + [m.value]) && Accounts(said + [m.value], ObserveAll(lines).progress) {
      return from, said + [m.value];
    }
    return |lines| - 1, [m.value];
  }

  lemma EmptyAccounts(lines: seq<bytes>)
    requires lines != [] && ObserveAll(Init(lines)).progress.family == NoFamily
    requires MessageOf(Last(lines)) in {None, Some([])}
    ensures ObserveAll(lines).progress == Progress(NoFamily, NoStage)
  {
    hide Observe, MessageStep, MessageOf;
    LineStep(ObserveAll(Init(lines)), Last(lines));
    EmptyMessage(ObserveAll(Init(lines)).progress);
  }

  /** One more line continues what the earlier ones said, or starts anew. */
  lemma LineAccounts(lines: seq<bytes>, from: nat, said: seq<bytes>, message: bytes)
    requires lines != [] && ObserveAll(Init(lines)).progress.family == NoFamily
    requires from < |lines| && Say(Init(lines)[from..], said) && Accounts(said, ObserveAll(Init(lines)).progress)
    requires MessageOf(Last(lines)) == Some(message) && message != []
    ensures var p := ObserveAll(lines).progress;
            || (Say(lines[from..], said + [message]) && Accounts(said + [message], p))
            || (Say(lines[|lines| - 1..], [message]) && Accounts([message], p))
  {
    hide Observe, MessageStep, Carries, Accounts, Say, ObserveAll, MessageOf;
    ObserveAllStep(lines);
    LineStep(ObserveAll(Init(lines)), Last(lines));
    MessageIsCarried(Last(lines), message);
    StepAccounts(ObserveAll(Init(lines)).progress, said, message);
    SaidOn(lines, from, said, message);
  }

  lemma NothingSaid(lines: seq<bytes>)
    ensures Say(lines[|lines|..], []) && Accounts([], Progress(NoFamily, NoStage))
  {
  }

  lemma SaidOn(lines: seq<bytes>, from: nat, said: seq<bytes>, message: bytes)
    requires lines != [] && from < |lines| && Say(Init(lines)[from..], said) && Carries(Last(lines), message)
    ensures Say(lines[from..], said + [message]) && Say(lines[|lines| - 1..], [message])
  {
    hide Carries;
    assert lines[from..] == Init(lines)[from..] + [Last(lines)];
  }

  lemma NoFamilyBefore(lines: seq<bytes>)
    requires ObserveAll(lines).progress.family == NoFamily
    ensures lines == [] || ObserveAll(Init(lines)).progress.family == NoFamily
  {
    if lines != [] {
      hide Observe, MessageStep;
      LineStep(ObserveAll(Init(lines)), Last(lines));
    }
  }

  /** Lines `a` up to `b` say why npm rejected the publication. */
  ghost predicate Rejection(lines: seq<bytes>, a: nat, b: nat, messages: seq<bytes>, family: Family) {
    a < b <= |lines| && Say(lines[a..b], messages) && Settles(messages, family)
  }

  lemma {:induction false} FamilyStays(lines: seq<bytes>, n: nat)
    requires n <= |lines| && ObserveAll(lines[..n]).progress.family != NoFamily
    ensures ObserveAll(lines).progress.family == ObserveAll(lines[..n]).progress.family
    decreases |lines|
  {
    if n < |lines| {
      hide Observe, MessageStep;
      assert Init(lines)[..n] == lines[..n];
      FamilyStays(Init(lines), n);
      LineStep(ObserveAll(Init(lines)), Last(lines));
    } else {
      assert lines[..n] == lines;
    }
  }

  lemma NothingObserved()
    ensures ObserveAll([]).progress == Progress(NoFamily, NoStage)
  {
  }

  /** A family comes from the first rejection to end. */
  lemma {:induction false} FamilyHasRejection(lines: seq<bytes>) returns (a: nat, b: nat, messages: seq<bytes>)
    requires ObserveAll(lines).progress.family != NoFamily
    ensures Rejection(lines, a, b, messages, ObserveAll(lines).progress.family)
    ensures ObserveAll(lines[..b - 1]).progress.family == NoFamily
    decreases |lines|
  {
    hide Observe, Say, Settles, ObserveAll;
    NothingObserved();
    if ObserveAll(Init(lines)).progress.family != NoFamily {
      a, b, messages := FamilyHasRejection(Init(lines));
      SlicesOfInit(lines, a, b);
      FamilyStays(lines, |lines| - 1);
    } else {
      a, messages := LinesAccount(lines);
      b := |lines|;
      WholeSlices(lines, a);
    }
  }

  lemma SlicesOfInit<T>(s: seq<T>, a: nat, b: nat)
    requires a < b < |s|
    ensures s[a..b] == Init(s)[a..b] && s[..b - 1] == Init(s)[..b - 1] && s[..|s| - 1] == Init(s)
  {
  }

  lemma WholeSlices<T>(s: seq<T>, a: nat)
    requires a < |s|
    ensures s[a..|s|] == s[a..] && s[..|s| - 1] == Init(s)
  {
  }

  lemma Pieces<T>(s: seq<T>, a: nat, b: nat)
    requires a < b <= |s|
    ensures s[..b - 1] == s[..a] + Init(s[a..b]) && s[..b] == s[..a] + s[a..b]
  {
  }

  lemma SettlesSome(messages: seq<bytes>, family: Family)
    requires Settles(messages, family)
    ensures family != NoFamily
  {
    hide Leads, Opens, LastDetails;
  }

  lemma RejectionGivesFamily(lines: seq<bytes>, a: nat, b: nat, messages: seq<bytes>, family: Family)
    requires Rejection(lines, a, b, messages, family) && ObserveAll(lines[..b - 1]).progress.family == NoFamily
    ensures ObserveAll(lines).progress.family == family != NoFamily
  {
    hide Observe, Say, RunMessages, ObserveAll, Settles, Ascii;
    var said := lines[a..b];
    Pieces(lines, a, b);
    SaidRunsOn(lines[..a], said, messages);
    SettlesRun(ObserveAll(lines[..a]).progress, messages, family);
    SettlesSome(messages, family);
    FamilyStays(lines, b);
  }

  /** The family is that of the rejection that ends first; without a rejection there is none. */
  lemma FamilyIffFirstRejection(lines: seq<bytes>, family: Family)
    requires family != NoFamily
    ensures ObserveAll(lines).progress.family == family <==> Rejected(lines, family)
  {
    hide Observe, Rejection, ObserveAll;
    if ObserveAll(lines).progress.family == family {
      var a, b, messages := FamilyHasRejection(lines);
      OnlyAtEnd(lines, a, b, messages, family);
      NoneEarlier(lines, b);
    }
    if a: nat, b: nat, messages :| Rejection(lines, a, b, messages, family) && EndsFirst(lines, b) {
      OnlyAtEnd(lines, a, b, messages, family);
      NothingBefore(lines, b);
      RejectionGivesFamily(lines, a, b, messages, family);
    }
  }

  lemma NoFamilyIff(lines: seq<bytes>)
    ensures ObserveAll(lines).progress.family == NoFamily <==>
            forall a, b, messages, f :: !Rejection(lines, a, b, messages, f)
  {
    hide Rejection, ObserveAll;
    if ObserveAll(lines).progress.family != NoFamily {
      var a, b, messages := FamilyHasRejection(lines);
    } else {
      forall a: nat, b: nat, messages, f
        ensures !Rejection(lines, a, b, messages, f)
      {
        if Rejection(lines, a, b, messages, f) {
          OnlyAtEnd(lines, a, b, messages, f);
          assert lines[..|lines|] == lines;
          RejectionSettles(lines, a, b, messages, f, |lines|);
        }
      }
    }
  }

  /** A rejection of this family, and none that ends earlier. */
  ghost predicate Rejected(lines: seq<bytes>, family: Family) {
    exists a, b, messages :: Rejection(lines, a, b, messages, family) && EndsFirst(lines, b)
  }

  /** No rejection ends before `b`. */
  ghost predicate EndsFirst(lines: seq<bytes>, b: nat) {
    forall a', b', messages', family' :: Rejection(lines, a', b', messages', family') ==> b <= b'
  }

  lemma OnlyAtEnd(lines: seq<bytes>, a: nat, b: nat, messages: seq<bytes>, family: Family)
    requires Rejection(lines, a, b, messages, family)
    ensures a < b <= |lines|
  {
  }

  lemma NothingBefore(lines: seq<bytes>, b: nat)
    requires 0 < b <= |lines| && EndsFirst(lines, b)
    ensures ObserveAll(lines[..b - 1]).progress.family == NoFamily
  {
    hide ObserveAll, Rejection;
    if ObserveAll(lines[..b - 1]).progress.family != NoFamily {
      var a', b', messages' := FamilyHasRejection(lines[..b - 1]);
      RejectionIn(lines, b - 1, a', b', messages', ObserveAll(lines[..b - 1]).progress.family);
    }
  }

  lemma RejectionIn(lines: seq<bytes>, n: nat, a: nat, b: nat, messages: seq<bytes>, family: Family)
    requires n <= |lines| && Rejection(lines[..n], a, b, messages, family)
    ensures Rejection(lines, a, b, messages, family) && b <= n
  {
    hide Say, Settles;
    assert lines[..n][a..b] == lines[a..b];
  }

  lemma NoneEarlier(lines: seq<bytes>, b: nat)
    requires 0 < b <= |lines| && ObserveAll(lines[..b - 1]).progress.family == NoFamily
    ensures EndsFirst(lines, b)
  {
    hide ObserveAll, Rejection;
    forall a': nat, b': nat, messages', family' | Rejection(lines, a', b', messages', family')
      ensures b <= b'
    {
      RejectionSettles(lines, a', b', messages', family', b - 1);
    }
  }

  lemma RejectionSettles(lines: seq<bytes>, a: nat, b: nat, messages: seq<bytes>, family: Family, n: nat)
    requires Rejection(lines, a, b, messages, family)
    requires n <= |lines| && ObserveAll(lines[..n]).progress.family == NoFamily
    ensures n < b
  {
    hide Observe, ObserveAll, Say, Settles;
    var front := lines[..n];
    if b <= n {
      assert front[..b - 1] == lines[..b - 1] && front[a..b] == lines[a..b];
      NoneUpTo(front, b - 1);
      RejectionGivesFamily(front, a, b, messages, family);
    }
  }

  lemma NoneUpTo(lines: seq<bytes>, n: nat)
    requires n <= |lines| && ObserveAll(lines).progress.family == NoFamily
    ensures ObserveAll(lines[..n]).progress.family == NoFamily
  {
    hide ObserveAll;
    if ObserveAll(lines[..n]).progress.family != NoFamily {
      FamilyStays(lines, n);
    }
  }
}
