/** Reading npm version declarations and matching them with the npm in use. */
module SemverText {
  import opened Text
  import opened SemverRange

  // ---- Numbers.

  predicate AllDigits(s: string) {
    forall i :: 0 <= i < |s| ==> '0' <= s[i] <= '9'
  }

  function Decimal(s: string): nat
    requires AllDigits(s)
  {
    if s == [] then 0 else Decimal(Init(s)) * 10 + (Last(s) as nat - '0' as nat)
  }

  function PrintNat(n: nat): (s: string)
    ensures s != [] && AllDigits(s)
  {
    var digit := [('0' as nat + n % 10) as char];
    if n < 10 then digit else PrintNat(n / 10) + digit
  }

  lemma {:induction false} DecimalOfPrint(n: nat)
    ensures Decimal(PrintNat(n)) == n
    ensures n > 0 ==> PrintNat(n)[0] != '0'
    ensures |PrintNat(n)| > 1 ==> n >= 10
  {
    var digit := [('0' as nat + n % 10) as char];
    if n >= 10 {
      DecimalOfPrint(n / 10);
      var s := PrintNat(n / 10) + digit;
      assert Init(s) == PrintNat(n / 10) && Last(s) == digit[0];
    } else {
      assert Init(digit) == [];
    }
  }

  /** `parseNPMVersionNumber`: digits without a leading zero, at most the component ceiling. A value past 64 bits
      is past the ceiling too. */
  function ParseNumber(text: string): (n: Option<nat>)
    ensures n.Some? ==> n.value <= MAX_COMPONENT
  {
    if text == "" || !AllDigits(text) || (|text| > 1 && text[0] == '0') || Decimal(text) > MAX_COMPONENT then None
    else Some(Decimal(text))
  }

  // ---- Partial versions.

  predicate IsWildcard(part: string) {
    part == "x" || part == "X" || part == "*"
  }

  predicate IdentifierChar(c: char) {
    '0' <= c <= '9' || 'a' <= c <= 'z' || 'A' <= c <= 'Z' || c == '-'
  }

  predicate ValidIdentifier(s: string) {
    && s != ""
    && (forall i :: 0 <= i < |s| ==> IdentifierChar(s[i]))
    && !(AllDigits(s) && |s| > 1 && s[0] == '0')
  }

  predicate ValidPrerelease(pre: string) {
    forall identifier :: identifier in Split(pre, '.') ==> ValidIdentifier(identifier)
  }

  /** The given components of a dotted core: numbers, then only wildcards. */
  function ParseParts(parts: seq<string>): (given: Option<seq<nat>>)
    ensures given.Some? ==>
              |given.value| <= |parts| && forall i :: 0 <= i < |given.value| ==> given.value[i] <= MAX_COMPONENT
  {
    if parts == [] then Some([])
    else if IsWildcard(parts[0]) then
      if forall part :: part in parts ==> IsWildcard(part) then Some([]) else None
    else
      var number, rest := ParseNumber(parts[0]), ParseParts(parts[1..]);
      if number.None? || rest.None? then None else Some([number.value] + rest.value)
  }

  function ParsePartial(input: string): (p: Option<Partial>)
    ensures p.Some? ==> ValidPartial(p.value)
  {
    var text := TrimPrefix(input, "v");
    if text == "" || '+' in text then None
    else
      var halves := Cut(text, "-");
      if halves.found && !ValidPrerelease(halves.after) then None
      else
        var parts := Split(halves.before, '.');
        var given := ParseParts(parts);
        if |parts| > 3 || given.None? then None
        else if !halves.found then Some(Partial(given.value, None))
        else if |given.value| == 3 then Some(Partial(given.value, Some(Split(halves.after, '.'))))
        else if |parts| == 3 && IsWildcard(parts[2]) then Some(Partial(given.value, None))
        else None
  }

  /** The source's loop over the parts of a version. */
  method ParsePartialVersion(input: string) returns (p: Option<Partial>)
    ensures p == ParsePartial(input)
  {
    if input == "" {
      assert TrimPrefix(input, "v") == "";
      return None;
    }
    var text := TrimPrefix(input, "v");
    if text == "" || '+' in text {
      return None;
    }
    var halves := Cut(text, "-");
    if halves.found && !ValidPrerelease(halves.after) {
      return None;
    }
    var parts := Split(halves.before, '.');
    if |parts| > 3 {
      return None;
    }
    var given := ParseComponents(parts);
    if given.None? {
      return None;
    }
    if halves.found {
      if |given.value| == 3 {
        return Some(Partial(given.value, Some(Split(halves.after, '.'))));
      }
      if |parts| != 3 || !IsWildcard(parts[2]) {
        return None;
      }
    }
    p := Some(Partial(given.value, None));
  }

  /** The loop over the components: no number may follow a wildcard. */
  method ParseComponents(parts: seq<string>) returns (result: Option<seq<nat>>)
    ensures result == ParseParts(parts)
  {
    hide ParseNumber, IsWildcard;
    var given: seq<nat> := [];
    var wildcardSeen := false;
    assert parts[0..] == parts;
    ContinuedNothing(ParseParts(parts));
    for i := 0 to |parts|
      invariant !wildcardSeen ==> Continued(given, ParseParts(parts[i..])) == ParseParts(parts)
      invariant wildcardSeen ==>
                  ParseParts(parts) ==
                  if forall j :: i <= j < |parts| ==> IsWildcard(parts[j]) then Some(given) else None
    {
      var rest := parts[i..];
      assert rest[0] == parts[i] && rest[1..] == parts[i + 1..];
      if IsWildcard(parts[i]) {
        if !wildcardSeen {
          assert (forall part :: part in rest ==> IsWildcard(part)) <==>
                 forall j :: i <= j < |parts| ==> IsWildcard(parts[j]) by {
            assert forall j :: i <= j < |parts| ==> parts[j] == rest[j - i];
          }
          NothingAdded(given);
        }
        wildcardSeen := true;
        continue;
      }
      var number := ParseNumber(parts[i]);
      if number.None? || wildcardSeen {
        return None;
      }
      ContinuedSnoc(given, number.value, ParseParts(rest[1..]));
      given := given + [number.value];
    }
    assert parts[|parts|..] == [];
    NothingAdded(given);
    result := Some(given);
  }

  // ---- Comparators and arms.

  predicate OperatorChar(c: char) {
    c == '<' || c == '>' || c == '=' || c == '~' || c == '^'
  }

  predicate LoneOperator(field: string) {
    field in {"<", "<=", ">", ">=", "=", "~", "^"}
  }

  /** The comparison operator a token starts with; none means equality. */
  function OperatorOf(token: string): (Operator, string) {
    if HasPrefix(token, ">=") then (AtLeast, token[2..])
    else if HasPrefix(token, "<=") then (AtMost, token[2..])
    else if HasPrefix(token, ">") then (Above, token[1..])
    else if HasPrefix(token, "<") then (Less, token[1..])
    else if HasPrefix(token, "=") then (Equal, token[1..])
    else (Equal, token)
  }

  function ComparatorBounds(token: string): Option<Bounds> {
    if IsWildcard(token) then Some(EVERYTHING)
    else if HasPrefix(token, "~") then
      var p := ParsePartial(token[1..]);
      if p.None? then None else Some(TildeBounds(p.value))
    else if HasPrefix(token, "^") then
      var p := ParsePartial(token[1..]);
      if p.None? then None else Some(CaretBounds(p.value))
    else
      var (op, rest) := OperatorOf(token);
      if rest == "" || OperatorChar(rest[0]) then None
      else
        var p := ParsePartial(rest);
        if p.None? then None else Some(OperatorBounds(op, p.value))
  }

  /** Joins every lone operator with the field after it. */
  function Tokens(fields: seq<string>): Option<seq<string>>
    requires NonEmptyFields(fields)
  {
    if fields == [] then Some([])
    else if !LoneOperator(fields[0]) then
      var rest := Tokens(fields[1..]);
      if rest.None? then None else Some([fields[0]] + rest.value)
    else if |fields| < 2 || OperatorChar(fields[1][0]) then None
    else
      var rest := Tokens(fields[2..]);
      if rest.None? then None else Some([fields[0] + fields[1]] + rest.value)
  }

  /** Whether an arm could be read, and whether it holds the version. */
  datatype Evaluation = Evaluation(matched: bool, ok: bool)

  /** Comparators are read one by one; the first that fails to parse or excludes the version ends it. */
  function EvaluateTokens(tokens: seq<string>, actual: Version): Evaluation {
    if tokens == [] then Evaluation(true, true)
    else
      var b := ComparatorBounds(tokens[0]);
      if b.None? then Evaluation(false, false)
      else if !Contains(b.value, actual) then Evaluation(false, true)
      else EvaluateTokens(tokens[1..], actual)
  }

  function HyphenArm(fields: seq<string>): Option<Bounds> {
    if |fields| != 3 || fields[1] != "-" || fields[0] == "-" || fields[2] == "-" then None
    else
      var left, right := ParsePartial(fields[0]), ParsePartial(fields[2]);
      if left.None? || right.None? then None else HyphenBounds(left.value, right.value)
  }

  function EvaluateArm(fields: seq<string>, actual: Version): Evaluation
    requires NonEmptyFields(fields)
  {
    if fields == [] then Evaluation(false, false)
    else if "-" in fields then
      var b := HyphenArm(fields);
      if b.None? then Evaluation(false, false) else Evaluation(Contains(b.value, actual), true)
    else
      var tokens := Tokens(fields);
      if tokens.None? then Evaluation(false, false) else EvaluateTokens(tokens.value, actual)
  }

  method ArmMatches(fields: seq<string>, actual: Version) returns (matched: bool, ok: bool)
    requires NonEmptyFields(fields)
    ensures Evaluation(matched, ok) == EvaluateArm(fields, actual)
  {
    hide ParsePartial, ComparatorBounds, HyphenBounds, Contains, Tokens, NonEmptyFields;
    if |fields| == 0 {
      return false, false;
    }
    var hyphen := -1;
    for i := 0 to |fields|
      invariant hyphen < i && (hyphen >= 0 ==> fields[hyphen] == "-")
      invariant forall j :: 0 <= j < i && fields[j] == "-" ==> j == hyphen
    {
      if fields[i] == "-" {
        if hyphen >= 0 {
          assert HyphenArm(fields).Some? ==> hyphen == 1 && i == 1;
          return false, false;
        }
        hyphen := i;
      }
    }
    if hyphen >= 0 {
      if |fields| != 3 || hyphen != 1 {
        return false, false;
      }
      var left := ParsePartialVersion(fields[0]);
      var right := ParsePartialVersion(fields[2]);
      if left.None? || right.None? {
        return false, false;
      }
      var bounds := HyphenBounds(left.value, right.value);
      if bounds.None? {
        return false, false;
      }
      return Contains(bounds.value, actual), true;
    }
    var tokens := JoinOperators(fields);
    if tokens.None? {
      return false, false;
    }
    for i := 0 to |tokens.value|
      invariant EvaluateTokens(tokens.value, actual) == EvaluateTokens(tokens.value[i..], actual)
    {
      var bounds := ComparatorBounds(tokens.value[i]);
      if bounds.None? || !Contains(bounds.value, actual) {
        return false, bounds.Some?;
      }
      assert tokens.value[i..][1..] == tokens.value[i + 1..];
    }
    assert tokens.value[|tokens.value|..] == [];
    return true, true;
  }

  /** The loop that binds lone operators. */
  method JoinOperators(fields: seq<string>) returns (tokens: Option<seq<string>>)
    requires NonEmptyFields(fields)
    ensures tokens == Tokens(fields)
  {
    var joined: seq<string> := [];
    var i := 0;
    assert fields[0..] == fields;
    ContinuedNothing(Tokens(fields));
    while i < |fields|
      invariant 0 <= i <= |fields|
      invariant NonEmptyFields(fields[i..])
      invariant Tokens(fields) == Continued(joined, Tokens(fields[i..]))
    {
      var field := fields[i];
      var rest := fields[i..];
      if !LoneOperator(field) {
        assert rest[1..] == fields[i + 1..];
        ContinuedSnoc(joined, field, Tokens(rest[1..]));
        joined := joined + [field];
      } else {
        if i + 1 >= |fields| {
          return None;
        }
        assert rest[1] == fields[i + 1];
        if OperatorChar(fields[i + 1][0]) {
          return None;
        }
        assert rest[2..] == fields[i + 2..];
        ContinuedSnoc(joined, field + fields[i + 1], Tokens(rest[2..]));
        joined := joined + [field + fields[i + 1]];
        i := i + 1;
      }
      i := i + 1;
    }
    assert fields[i..] == [];
    NothingAdded(joined);
    tokens := Some(joined);
  }

  // ---- Declarations.

  function TrimSpace(s: string): string {
    if s == "" then ""
    else if IsSpace(s[0]) then TrimSpace(s[1..])
    else if IsSpace(Last(s)) then TrimSpace(Init(s))
    else s
  }

  function ArmsOf(declared: string): (arms: seq<seq<string>>)
    ensures forall arm :: arm in arms ==> NonEmptyFields(arm)
  {
    var pieces := SplitOn(TrimSpace(declared), "||");
    seq(|pieces|, i requires 0 <= i < |pieces| => Fields(pieces[i]))
  }

  /** Every arm could be read, as far as reading went, and some arm holds the version. */
  predicate MatchArms(arms: seq<seq<string>>, actual: Version)
    requires forall arm :: arm in arms ==> NonEmptyFields(arm)
  {
    && (forall arm :: arm in arms ==> EvaluateArm(arm, actual).ok)
    && (exists arm :: arm in arms && EvaluateArm(arm, actual).matched)
  }

  function ParseActual(actual: string): Option<Version> {
    var p := ParsePartial(actual);
    if p.None? || !Full(p.value) || p.value.pre.Some? then None else Some(ZeroFilled(p.value))
  }

  predicate Matches(declared: string, actual: string) {
    ParseActual(actual).Some? && TrimSpace(declared) != "" && MatchArms(ArmsOf(declared), ParseActual(actual).value)
  }

  method DeclaredMatchesActual(declared: string, actual: string) returns (result: bool)
    ensures result <==> Matches(declared, actual)
  {
    var p := ParsePartialVersion(actual);
    if p.None? || !Full(p.value) || p.value.pre.Some? {
      return false;
    }
    var version := ZeroFilled(p.value);
    var trimmed := TrimSpace(declared);
    if trimmed == "" {
      return false;
    }
    var matched := false;
    var arms := SplitOn(trimmed, "||");
    ghost var fields := ArmsOf(declared);
    for i := 0 to |arms|
      invariant forall arm :: arm in fields[..i] ==> EvaluateArm(arm, version).ok
      invariant matched <==> exists arm :: arm in fields[..i] && EvaluateArm(arm, version).matched
    {
      var armMatched, armOK := ArmMatches(Fields(arms[i]), version);
      TakeNext(fields, i);
      if !armOK {
        assert fields[i] in fields;
        return false;
      }
      matched := matched || armMatched;
    }
    assert fields[..|arms|] == fields;
    result := matched;
  }

  // ---- What a declaration means.

  /** The intervals of an arm all of whose comparators parse. */
  function IntervalsOf(tokens: seq<string>): Option<seq<Bounds>> {
    if tokens == [] then Some([])
    else
      var first, rest := ComparatorBounds(tokens[0]), IntervalsOf(tokens[1..]);
      if first.None? || rest.None? then None else Some([first.value] + rest.value)
  }

  function ArmIntervals(fields: seq<string>): Option<seq<Bounds>>
    requires NonEmptyFields(fields)
  {
    if fields == [] then None
    else if "-" in fields then
      if HyphenArm(fields).None? then None else Some([HyphenArm(fields).value])
    else if Tokens(fields).None? then None
    else IntervalsOf(Tokens(fields).value)
  }

  predicate AllContain(intervals: seq<Bounds>, actual: Version) {
    forall b :: b in intervals ==> Contains(b, actual)
  }

  /** An unreadable comparator hides behind an earlier one that already excludes the version. */
  ghost predicate Masked(fields: seq<string>, actual: Version)
    requires NonEmptyFields(fields)
  {
    && "-" !in fields && fields != [] && Tokens(fields).Some?
    && var tokens := Tokens(fields).value;
       exists j :: 0 <= j < |tokens| && Excludes(tokens[j], actual)
                   && (forall i :: 0 <= i < j ==> ComparatorBounds(tokens[i]).Some?)
                   && exists i :: j < i < |tokens| && ComparatorBounds(tokens[i]).None?
  }

  predicate Excludes(token: string, actual: Version) {
    ComparatorBounds(token).Some? && !Contains(ComparatorBounds(token).value, actual)
  }

  lemma {:induction false} IntervalsAt(tokens: seq<string>)
    ensures IntervalsOf(tokens).None? <==> exists i :: 0 <= i < |tokens| && ComparatorBounds(tokens[i]).None?
    ensures IntervalsOf(tokens).Some? ==>
              && |IntervalsOf(tokens).value| == |tokens|
              && forall i :: 0 <= i < |tokens| ==> ComparatorBounds(tokens[i]) == Some(IntervalsOf(tokens).value[i])
  {
    if tokens != [] {
      hide ComparatorBounds;
      IntervalsAt(tokens[1..]);
      assert forall i :: 1 <= i < |tokens| ==> tokens[i] == tokens[1..][i - 1];
    }
  }

  lemma {:induction false} EvaluatesTo(tokens: seq<string>, actual: Version)
    ensures IntervalsOf(tokens).Some? ==>
              EvaluateTokens(tokens, actual) == Evaluation(AllContain(IntervalsOf(tokens).value, actual), true)
    ensures IntervalsOf(tokens).None? ==>
              && !EvaluateTokens(tokens, actual).matched
              && (EvaluateTokens(tokens, actual).ok <==>
                  exists j :: 0 <= j < |tokens| && Excludes(tokens[j], actual)
                              && (forall i :: 0 <= i < j ==> ComparatorBounds(tokens[i]).Some?))
  {
    if tokens != [] {
      hide ComparatorBounds, Contains;
      EvaluatesTo(tokens[1..], actual);
      IntervalsAt(tokens);
      IntervalsAt(tokens[1..]);
      assert forall i :: 1 <= i < |tokens| ==> tokens[i] == tokens[1..][i - 1];
      if IntervalsOf(tokens).None? && ComparatorBounds(tokens[0]).Some? {
        if EvaluateTokens(tokens[1..], actual).ok && !Excludes(tokens[0], actual) {
          var j :| 0 <= j < |tokens[1..]| && Excludes(tokens[1..][j], actual)
            && (forall i :: 0 <= i < j ==> ComparatorBounds(tokens[1..][i]).Some?);
          assert Excludes(tokens[j + 1], actual);
        }
      }
    }
  }

  lemma ArmEvaluation(fields: seq<string>, actual: Version)
    requires NonEmptyFields(fields)
    ensures ArmIntervals(fields).Some? ==>
              EvaluateArm(fields, actual) == Evaluation(AllContain(ArmIntervals(fields).value, actual), true)
    ensures ArmIntervals(fields).None? ==>
              !EvaluateArm(fields, actual).matched && (EvaluateArm(fields, actual).ok <==> Masked(fields, actual))
  {
    hide ComparatorBounds, Contains, HyphenArm, Tokens;
    if fields != [] && "-" !in fields && Tokens(fields).Some? {
      var tokens := Tokens(fields).value;
      EvaluatesTo(tokens, actual);
      IntervalsAt(tokens);
      if IntervalsOf(tokens).None? && EvaluateTokens(tokens, actual).ok {
        var j :| 0 <= j < |tokens| && Excludes(tokens[j], actual)
                 && (forall i :: 0 <= i < j ==> ComparatorBounds(tokens[i]).Some?);
        var i :| 0 <= i < |tokens| && ComparatorBounds(tokens[i]).None?;
        assert i > j;
      }
    }
  }

  /** Some arm's comparators all contain the version. */
  predicate SomeArmHolds(arms: seq<seq<string>>, actual: Version)
    requires forall arm :: arm in arms ==> NonEmptyFields(arm)
  {
    exists arm :: arm in arms && ArmIntervals(arm).Some? && AllContain(ArmIntervals(arm).value, actual)
  }

  predicate AllReadable(arms: seq<seq<string>>)
    requires forall arm :: arm in arms ==> NonEmptyFields(arm)
  {
    forall arm :: arm in arms ==> ArmIntervals(arm).Some?
  }

  /** When everything parses, a declaration holds the version exactly when all intervals of some arm do. */
  lemma ReadableDeclarationsMean(arms: seq<seq<string>>, actual: Version)
    requires forall arm :: arm in arms ==> NonEmptyFields(arm)
    requires AllReadable(arms)
    ensures MatchArms(arms, actual) <==> SomeArmHolds(arms, actual)
  {
    hide ArmIntervals, EvaluateArm, AllContain;
    forall arm | arm in arms
      ensures EvaluateArm(arm, actual) == Evaluation(AllContain(ArmIntervals(arm).value, actual), true)
    {
      ArmEvaluation(arm, actual);
    }
  }

  /** The documented rule makes any unreadable arm unmatchable. The code departs from it exactly when it matches
      although some arm is masked: a comparator of it excludes the version before the unreadable one is read. */
  lemma DepartsFromDocumentedRule(arms: seq<seq<string>>, actual: Version)
    requires forall arm :: arm in arms ==> NonEmptyFields(arm)
    ensures MatchArms(arms, actual) <==>
            && SomeArmHolds(arms, actual)
            && forall arm :: arm in arms ==> ArmIntervals(arm).Some? || Masked(arm, actual)
    ensures (MatchArms(arms, actual) <==> AllReadable(arms) && SomeArmHolds(arms, actual)) <==>
            !(&& SomeArmHolds(arms, actual) && !AllReadable(arms)
              && forall arm :: arm in arms ==> ArmIntervals(arm).Some? || Masked(arm, actual))
  {
    hide ArmIntervals, EvaluateArm, AllContain, Masked;
    forall arm | arm in arms
      ensures EvaluateArm(arm, actual).ok <==> ArmIntervals(arm).Some? || Masked(arm, actual)
      ensures EvaluateArm(arm, actual).matched <==>
              ArmIntervals(arm).Some? && AllContain(ArmIntervals(arm).value, actual)
    {
      ArmEvaluation(arm, actual);
    }
  }

  /** The order of arms never matters. */
  lemma ArmOrderDoesNotMatter(arms: seq<seq<string>>, arms': seq<seq<string>>, actual: Version)
    requires forall arm :: arm in arms ==> NonEmptyFields(arm)
    requires forall arm :: arm in arms' ==> NonEmptyFields(arm)
    requires multiset(arms) == multiset(arms')
    ensures MatchArms(arms, actual) <==> MatchArms(arms', actual)
  {
    hide EvaluateArm;
    assert forall arm :: (arm in arms <==> arm in multiset(arms)) && (arm in arms' <==> arm in multiset(arms'));
  }

  /** The order of comparators does not matter when all of them parse. */
  lemma ComparatorOrderDoesNotMatter(tokens: seq<string>, tokens': seq<string>, actual: Version)
    requires multiset(tokens) == multiset(tokens') && IntervalsOf(tokens).Some?
    ensures IntervalsOf(tokens').Some? && EvaluateTokens(tokens, actual) == EvaluateTokens(tokens', actual)
  {
    hide ComparatorBounds, Contains;
    IntervalsAt(tokens);
    IntervalsAt(tokens');
    EvaluatesTo(tokens, actual);
    EvaluatesTo(tokens', actual);
    assert forall t :: (t in tokens <==> t in multiset(tokens)) && (t in tokens' <==> t in multiset(tokens'));
    assert forall i :: 0 <= i < |tokens'| ==> tokens'[i] in tokens;
    assert forall i :: 0 <= i < |tokens| ==> tokens[i] in tokens';
    HoldsByToken(tokens, actual);
    HoldsByToken(tokens', actual);
  }

  lemma HoldsByToken(tokens: seq<string>, actual: Version)
    requires IntervalsOf(tokens).Some?
    ensures AllContain(IntervalsOf(tokens).value, actual) <==> forall t :: t in tokens ==> !Excludes(t, actual)
  {
    hide ComparatorBounds, Contains;
    IntervalsAt(tokens);
    var intervals := IntervalsOf(tokens).value;
    assert forall i :: 0 <= i < |tokens| ==> tokens[i] in tokens && intervals[i] in intervals;
  }

  // ---- Printed releases.

  function PrintRelease(v: Version): string {
    PrintNat(v.major) + ['.'] + PrintNat(v.minor) + ['.'] + PrintNat(v.patch)
  }

  ghost predicate PrintableRelease(v: Version) {
    Release(v) && v.major <= MAX_COMPONENT && v.minor <= MAX_COMPONENT && v.patch <= MAX_COMPONENT
  }

  predicate DigitsAndDots(s: string) {
    && s != "" && '0' <= s[0] <= '9' && '0' <= Last(s) <= '9'
    && forall i :: 0 <= i < |s| ==> '0' <= s[i] <= '9' || s[i] == '.'
  }

  lemma PrintedShape(v: Version)
    ensures DigitsAndDots(PrintRelease(v))
    ensures Split(PrintRelease(v), '.') == [PrintNat(v.major), PrintNat(v.minor), PrintNat(v.patch)]
  {
    hide PrintNat, Split;
    var a, b, c := PrintNat(v.major), PrintNat(v.minor), PrintNat(v.patch);
    SplitWithoutSeparator(a, '.');
    SplitWithoutSeparator(b, '.');
    SplitWithoutSeparator(c, '.');
    SplitAtSeparator(a, b, '.');
    SplitAtSeparator(a + ['.'] + b, c, '.');
    assert [a] + [b] + [c] == [a, b, c];
  }

  lemma PrintedNumber(n: nat)
    requires n <= MAX_COMPONENT
    ensures ParseNumber(PrintNat(n)) == Some(n) && !IsWildcard(PrintNat(n))
  {
    DecimalOfPrint(n);
    var s := PrintNat(n);
    assert '0' <= s[0] <= '9';
  }

  lemma {:induction false} IndexOfAbsent(s: string, sep: string)
    requires sep != "" && sep[0] !in s
    ensures IndexOf(s, sep) == None
  {
    if s != "" {
      IndexOfAbsent(s[1..], sep);
    }
  }

  /** A printed release parses back to its components. */
  lemma ParsePrintedRelease(v: Version)
    requires PrintableRelease(v)
    ensures ParsePartial(PrintRelease(v)) == Some(Partial([v.major, v.minor, v.patch], None))
  {
    hide PrintNat, Split, ParseNumber, IsWildcard;
    var s := PrintRelease(v);
    var parts := [PrintNat(v.major), PrintNat(v.minor), PrintNat(v.patch)];
    PrintedShape(v);
    hide PrintRelease;
    IndexOfAbsent(s, "-");
    PrintedNumber(v.major);
    PrintedNumber(v.minor);
    PrintedNumber(v.patch);
    assert parts[1..] == [parts[1], parts[2]] && parts[1..][1..] == [parts[2]] && parts[1..][1..][1..] == [];
    assert ParseParts([]) == Some([]);
    assert [v.patch] + [] == [v.patch] && ParseParts([parts[2]]) == Some([v.patch]);
    assert [v.minor] + [v.patch] == [v.minor, v.patch] && ParseParts(parts[1..]) == Some([v.minor, v.patch]);
    assert [v.major] + [v.minor, v.patch] == [v.major, v.minor, v.patch];
    assert TrimPrefix(s, "v") == s && '+' !in s;
  }

  lemma OneArm(s: string)
    requires DigitsAndDots(s)
    ensures TrimSpace(s) == s && ArmsOf(s) == [[s]]
  {
    hide Split, IndexOf, NonEmpty;
    IndexOfAbsent(s, "||");
    assert TrimSpace(s) == s && SplitOn(s, "||") == [s];
    OneField(s);
  }

  lemma OneField(s: string)
    requires DigitsAndDots(s)
    ensures Fields(s) == [s]
  {
    hide Split, NonEmpty;
    assert OneSpace(s) == s;
    SplitWithoutSeparator(s, ' ');
    NonEmptyOne(s);
  }

  lemma NonEmptyOne(s: string)
    requires s != ""
    ensures NonEmpty([s]) == [s]
  {
    NonEmptyInit([s]);
  }

  lemma PlainToken(s: string)
    requires DigitsAndDots(s)
    ensures s != "-" && !LoneOperator(s) && !IsWildcard(s)
    ensures !HasPrefix(s, "~") && !HasPrefix(s, "^") && OperatorOf(s) == (Equal, s) && !OperatorChar(s[0])
    ensures "-" !in [s] && Tokens([s]) == Some([s])
  {
    assert [s][1..] == [] && [s] + [] == [s];
    assert Tokens([]) == Some([]);
  }

  lemma ReleaseArm(v: Version, w: Version)
    requires PrintableRelease(v) && Release(w)
    ensures EvaluateArm([PrintRelease(v)], w) == Evaluation(v == w, true)
  {
    hide PrintRelease, ParsePartial, Tokens, OperatorOf, IsWildcard;
    var s := PrintRelease(v);
    ParsePrintedRelease(v);
    PrintedShape(v);
    PlainToken(s);
    var p := Partial([v.major, v.minor, v.patch], None);
    assert ZeroFilled(p) == v;
    XRangeIsAgreement(p, w);
    assert ComparatorBounds(s) == Some(OperatorBounds(Equal, p));
    assert [s][1..] == [] && EvaluateTokens([], w) == Evaluation(true, true);
  }

  /** Printed releases match exactly when they are equal. */
  lemma PrintedReleasesMatchIffEqual(v: Version, w: Version)
    requires PrintableRelease(v) && PrintableRelease(w)
    ensures Matches(PrintRelease(v), PrintRelease(w)) <==> v == w
  {
    hide PrintRelease, ParsePartial, ArmsOf, TrimSpace, EvaluateArm;
    ParsePrintedRelease(w);
    PrintedShape(v);
    OneArm(PrintRelease(v));
    assert ZeroFilled(Partial([w.major, w.minor, w.patch], None)) == w;
    ReleaseArm(v, w);
  }

  /** Whatever unreadable `x` follows a comparator `>v` that excludes `w`, the arm counts as read. */
  lemma MaskingArm(v: Version, w: Version)
    requires PrintableRelease(v) && Release(w) && !VersionBelow(v, w)
    ensures var arm := [">" + PrintRelease(v), "y"];
            ArmIntervals(arm).None? && EvaluateArm(arm, w) == Evaluation(false, true)
  {
    hide PrintRelease, ParsePartial, IsWildcard, LoneOperator, OperatorOf, HasPrefix;
    var t := ">" + PrintRelease(v);
    PrintedShape(v);
    ParsePrintedRelease(v);
    GreaterToken(PrintRelease(v));
    LetterIsUnreadable();
    var fields := [t, "y"];
    assert fields[1..] == ["y"] && ["y"][1..] == [] && Tokens([]) == Some([]);
    assert ["y"] + [] == ["y"] && Tokens(["y"]) == Some(["y"]);
    assert [t] + ["y"] == fields && Tokens(fields) == Some(fields);
    var p := Partial([v.major, v.minor, v.patch], None);
    assert ZeroFilled(p) == v;
    VersionTrichotomy(v, w);
    assert ComparatorBounds(t) == Some(OperatorBounds(Above, p)) && !Contains(OperatorBounds(Above, p), w);
    assert IntervalsOf(["y"]).None?;
  }

  const MASKED_FIRST := ">2.0.0 y "
  const MASKED_SECOND := " 1.0.0"

  /** A declaration whose first arm cannot be read. */
  const MASKED_DECLARATION := MASKED_FIRST + "||" + MASKED_SECOND

  lemma MaskedText()
    ensures MASKED_DECLARATION == ">2.0.0 y || 1.0.0" && TrimSpace(MASKED_DECLARATION) == MASKED_DECLARATION
  {
    var s := MASKED_DECLARATION;
    assert s[0] == '>' && Last(s) == '0';
  }

  lemma PrintSmall(n: nat)
    requires n < 10
    ensures PrintNat(n) == [('0' as nat + n) as char]
  {
  }

  lemma PrintedSmallRelease(n: nat)
    requires n < 10
    ensures PrintRelease(Version(n, 0, 0, None)) == [('0' as nat + n) as char] + ".0.0"
  {
    PrintSmall(n);
    PrintSmall(0);
  }

  lemma NoBar(s: string)
    requires '|' !in s
    ensures IndexOf(s, "||") == None && SplitOn(s, "||") == [s]
  {
    IndexOfAbsent(s, "||");
  }

  /** The arms are split at the bar. */
  lemma MaskedPieces()
    ensures SplitOn(MASKED_DECLARATION, "||") == [MASKED_FIRST, MASKED_SECOND]
  {
    hide IndexOf, SplitOn;
    var s := MASKED_DECLARATION;
    assert forall i :: 0 <= i < 9 ==> s[i] != '|';
    forall i | 0 <= i < 9
      ensures !HasPrefix(s[i..], "||")
    {
      assert s[i..][0] == s[i];
    }
    assert HasPrefix(s[9..], "||");
    IndexIsUnique(s, "||", 9);
    SplitOnAt(MASKED_FIRST, MASKED_SECOND, "||");
    NoBar(MASKED_SECOND);
  }

  lemma MaskedFields()
    ensures Fields(MASKED_FIRST) == [">2.0.0", "y"] && Fields(MASKED_SECOND) == ["1.0.0"]
  {
    hide Split, NonEmpty;
    var a, b := ">2.0.0", "y";
    assert OneSpace(MASKED_FIRST) == a + [' '] + (b + [' '] + "");
    assert OneSpace(MASKED_SECOND) == "" + [' '] + "1.0.0";
    SplitWithoutSeparator(a, ' ');
    SplitWithoutSeparator(b, ' ');
    SplitWithoutSeparator("", ' ');
    SplitWithoutSeparator("1.0.0", ' ');
    SplitAtSeparator(b, "", ' ');
    SplitAtSeparator(a, b + [' '] + "", ' ');
    SplitAtSeparator("", "1.0.0", ' ');
    assert [a] + ([b] + [""]) == [a] + [b] + [""];
    NonEmptyNothing([a]);
    assert [a][..0] == [] && [] + [a] == [a] && [] + [""] == [""];
    NonEmptySnoc([], a);
    NonEmptySnoc([a], b);
    NonEmptySnoc([a] + [b], "");
    NonEmptySnoc([], "");
    NonEmptySnoc([""], "1.0.0");
  }

  lemma MaskedArms()
    ensures ArmsOf(MASKED_DECLARATION) == [[">2.0.0", "y"], ["1.0.0"]]
  {
    hide SplitOn, TrimSpace, Fields;
    MaskedText();
    MaskedPieces();
    MaskedFields();
  }

  /** A concrete departure: the arm `>2.0.0 y` cannot be read, yet `>2.0.0 y || 1.0.0` matches 1.0.0. */
  lemma UnreadableArmMatches()
    ensures MASKED_DECLARATION == ">2.0.0 y || 1.0.0"
    ensures !AllReadable(ArmsOf(MASKED_DECLARATION)) && Matches(MASKED_DECLARATION, "1.0.0")
  {
    hide PrintRelease, ArmIntervals, EvaluateArm, ArmsOf, TrimSpace, ParsePartial;
    var one, two := Version(1, 0, 0, None), Version(2, 0, 0, None);
    PrintedSmallRelease(1);
    PrintedSmallRelease(2);
    assert PrintRelease(one) == "1.0.0" && ">" + PrintRelease(two) == ">2.0.0";
    MaskedText();
    MaskedArms();
    PrintedShape(one);
    MaskingArm(two, one);
    ReleaseArm(one, one);
    ParsePrintedRelease(one);
    assert ZeroFilled(Partial([1, 0, 0], None)) == one;
    var arms := [[">2.0.0", "y"], ["1.0.0"]];
    assert arms[0] in arms && arms[1] in arms;
  }

  lemma GreaterToken(s: string)
    requires DigitsAndDots(s)
    ensures var t := ">" + s;
            && t != "-" && !LoneOperator(t) && !IsWildcard(t) && !HasPrefix(t, "~") && !HasPrefix(t, "^")
            && OperatorOf(t) == (Above, s) && !OperatorChar(s[0])
  {
    var t := ">" + s;
    assert t[1] == s[0] && t[1..] == s;
  }

  lemma LetterIsUnreadable()
    ensures ComparatorBounds("y").None? && !LoneOperator("y") && "y" != "-"
  {
    IndexOfAbsent("y", "-");
    SplitWithoutSeparator("y", '.');
    assert TrimPrefix("y", "v") == "y" && !AllDigits("y");
    assert ParseParts(["y"]).None?;
    assert OperatorOf("y") == (Equal, "y");
  }
}
