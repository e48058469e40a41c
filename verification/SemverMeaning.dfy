/** What a printed declaration means: from the text of npm ranges to precedence and agreement of components. */
module SemverMeaning {
  import opened Text
  import opened SemverRange
  import opened SemverText

  // ---- Printed partial versions.

  function Numbers(given: seq<nat>): (parts: seq<string>)
    ensures |parts| == |given| && forall i :: 0 <= i < |given| ==> parts[i] == PrintNat(given[i])
  {
    seq(|given|, i requires 0 <= i < |given| => PrintNat(given[i]))
  }

  function PrintPartial(p: Partial): string {
    if p.pre.None? then Join(Numbers(p.given), '.')
    else Join(Numbers(p.given), '.') + "-" + Join(p.pre.value, '.')
  }

  /** A partial version that can be written down: some given components, and identifiers as SemVer has them. */
  ghost predicate Printable(p: Partial) {
    && ValidPartial(p) && p.given != []
    && (p.pre.Some? ==> p.pre.value != [] && forall i :: 0 <= i < |p.pre.value| ==> ValidIdentifier(p.pre.value[i]))
  }

  /** A text that starts with a digit and holds only letters, digits, hyphens and dots. */
  predicate VersionText(s: string) {
    s != "" && '0' <= s[0] <= '9' && forall i :: 0 <= i < |s| ==> IdentifierChar(s[i]) || s[i] == '.'
  }

  lemma {:induction false} JoinedChars(parts: seq<string>)
    requires parts != []
    requires forall i, j :: 0 <= i < |parts| && 0 <= j < |parts[i]| ==> IdentifierChar(parts[i][j])
    requires parts[0] != ""
    ensures Join(parts, '.') != "" && Join(parts, '.')[0] == parts[0][0]
    ensures forall j :: 0 <= j < |Join(parts, '.')| ==>
              IdentifierChar(Join(parts, '.')[j]) || Join(parts, '.')[j] == '.'
  {
    if |parts| > 1 {
      JoinedChars(Init(parts));
    }
  }

  lemma {:induction false} JoinedDigits(parts: seq<string>)
    requires forall i, j :: 0 <= i < |parts| && 0 <= j < |parts[i]| ==> '0' <= parts[i][j] <= '9'
    ensures '-' !in Join(parts, '.')
  {
    if |parts| > 1 {
      JoinedDigits(Init(parts));
    }
  }

  lemma {:induction false} ParseNumbers(given: seq<nat>)
    requires forall i :: 0 <= i < |given| ==> given[i] <= MAX_COMPONENT
    ensures ParseParts(Numbers(given)) == Some(given)
  {
    hide PrintNat, ParseNumber, IsWildcard;
    if given != [] {
      PrintedNumber(given[0]);
      ParseNumbers(given[1..]);
      assert Numbers(given)[1..] == Numbers(given[1..]);
      assert given == [given[0]] + given[1..];
    }
  }

  lemma NumbersAreDigits(given: seq<nat>)
    ensures forall i, j :: 0 <= i < |given| && 0 <= j < |Numbers(given)[i]| ==> '0' <= Numbers(given)[i][j] <= '9'
    ensures forall i :: 0 <= i < |given| ==> Numbers(given)[i] != "" && '.' !in Numbers(given)[i]
  {
  }

  lemma PrintedCore(given: seq<nat>)
    requires given != []
    ensures VersionText(Join(Numbers(given), '.')) && '-' !in Join(Numbers(given), '.')
    ensures Split(Join(Numbers(given), '.'), '.') == Numbers(given)
  {
    hide PrintNat, Split, Join;
    NumbersAreDigits(given);
    JoinedChars(Numbers(given));
    JoinedDigits(Numbers(given));
    SplitJoin(Numbers(given), '.');
  }

  lemma PrintedPre(pre: seq<string>)
    requires pre != [] && forall i :: 0 <= i < |pre| ==> ValidIdentifier(pre[i])
    ensures Split(Join(pre, '.'), '.') == pre && ValidPrerelease(Join(pre, '.'))
    ensures forall j :: 0 <= j < |Join(pre, '.')| ==> IdentifierChar(Join(pre, '.')[j]) || Join(pre, '.')[j] == '.'
  {
    hide Split, Join;
    forall i | 0 <= i < |pre|
      ensures '.' !in pre[i]
    {
      assert ValidIdentifier(pre[i]);
    }
    SplitJoin(pre, '.');
    JoinedChars(pre);
    assert forall identifier :: identifier in pre ==> ValidIdentifier(identifier);
  }

  lemma PrintedVersionText(p: Partial)
    requires Printable(p)
    ensures VersionText(PrintPartial(p))
  {
    hide Join, Numbers, ValidIdentifier;
    PrintedCore(p.given);
    if p.pre.Some? {
      PrintedPre(p.pre.value);
    }
  }

  lemma CutAtHyphen(core: string, after: string)
    requires '-' !in core
    ensures Cut(core + "-" + after, "-") == Halves(core, after, true)
  {
    var s := core + "-" + after;
    forall i | 0 <= i < |core|
      ensures !HasPrefix(s[i..], "-")
    {
      assert s[i..][0] == core[i];
    }
    assert s[|core|..] == "-" + after && HasPrefix(s[|core|..], "-");
    IndexIsUnique(s, "-", |core|);
    assert s[..|core|] == core && s[|core| + 1..] == after;
  }

  /** A printed partial version parses back. */
  lemma ParsePrintedPartial(p: Partial)
    requires Printable(p)
    ensures ParsePartial(PrintPartial(p)) == Some(p)
  {
    hide Join, Split, ParseParts, ValidIdentifier, ValidPrerelease, Numbers, IndexOf, Cut;
    var text, core := PrintPartial(p), Join(Numbers(p.given), '.');
    PrintedVersionText(p);
    PrintedCore(p.given);
    ParseNumbers(p.given);
    assert TrimPrefix(text, "v") == text && '+' !in text;
    if p.pre.None? {
      CutWithoutHyphen(text);
    } else {
      PrintedPre(p.pre.value);
      CutAtHyphen(core, Join(p.pre.value, '.'));
    }
  }

  lemma CutWithoutHyphen(s: string)
    requires '-' !in s
    ensures Cut(s, "-") == Halves(s, "", false)
  {
    IndexOfAbsent(s, "-");
  }

  // ---- Comparators, arms and declarations as written.

  datatype Spelling = Bare | Equals | Greater | GreaterOrEqual | Lower | LowerOrEqual | Tilde | Caret

  function Spell(op: Spelling): string {
    match op
    case Bare => ""
    case Equals => "="
    case Greater => ">"
    case GreaterOrEqual => ">="
    case Lower => "<"
    case LowerOrEqual => "<="
    case Tilde => "~"
    case Caret => "^"
  }

  /** An operator and its version; `apart` when white space stands between them. */
  datatype Comparator = Comparator(op: Spelling, p: Partial, apart: bool)

  datatype Arm = Both(comparators: seq<Comparator>) | Hyphen(left: Partial, right: Partial)

  ghost predicate Written(c: Comparator) {
    Printable(c.p) && (c.apart ==> c.op != Bare)
  }

  ghost predicate WrittenArm(arm: Arm) {
    match arm
    case Both(comparators) => comparators != [] && forall c :: c in comparators ==> Written(c)
    case Hyphen(left, right) => Printable(left) && Printable(right)
  }

  function Token(c: Comparator): string {
    Spell(c.op) + PrintPartial(c.p)
  }

  function FieldsOf(c: Comparator): seq<string> {
    if c.apart then [Spell(c.op), PrintPartial(c.p)] else [Token(c)]
  }

  function AllFields(comparators: seq<Comparator>): seq<string> {
    if comparators == [] then [] else FieldsOf(comparators[0]) + AllFields(comparators[1..])
  }

  function ArmFields(arm: Arm): seq<string> {
    match arm
    case Both(comparators) => AllFields(comparators)
    case Hyphen(left, right) => [PrintPartial(left), "-", PrintPartial(right)]
  }

  function ArmText(arm: Arm): string {
    Join(ArmFields(arm), ' ')
  }

  function DeclarationText(arms: seq<Arm>): string
    requires arms != []
  {
    if |arms| == 1 then ArmText(arms[0]) else ArmText(arms[0]) + "||" + DeclarationText(arms[1..])
  }

  // ---- Their meaning, by the order of versions and agreement of components.

  ghost predicate Past(p: Partial, w: Version)
    requires ValidPartial(p)
  {
    if Full(p) then VersionBelow(ZeroFilled(p), w)
    else AtOrAbove(w, ZeroFilled(p)) && !Agrees(w, p, |p.given|)
  }

  ghost predicate Holds(c: Comparator, w: Version) {
    ValidPartial(c.p) &&
    match c.op
    case Bare => if Full(c.p) then w == ZeroFilled(c.p) else Agrees(w, c.p, |c.p.given|)
    case Equals => if Full(c.p) then w == ZeroFilled(c.p) else Agrees(w, c.p, |c.p.given|)
    case Greater => Past(c.p, w)
    case GreaterOrEqual => AtOrAbove(w, ZeroFilled(c.p))
    case Lower => VersionBelow(w, ZeroFilled(c.p))
    case LowerOrEqual => !Past(c.p, w)
    case Tilde => AtOrAbove(w, ZeroFilled(c.p)) && Agrees(w, c.p, if |c.p.given| >= 2 then 2 else |c.p.given|)
    case Caret => AtOrAbove(w, ZeroFilled(c.p)) && AgreesThroughFirstNonZero(w, c.p)
  }

  /** `w` agrees with the given components of `p` through the first that is not zero; with all when all are zero. */
  ghost predicate AgreesThroughFirstNonZero(w: Version, p: Partial)
    requires ValidPartial(p)
  {
    forall i :: 0 <= i < |p.given| && (forall j :: 0 <= j < i ==> p.given[j] == 0) ==> Components(w)[i] == p.given[i]
  }

  ghost predicate AllHold(comparators: seq<Comparator>, w: Version) {
    forall c :: c in comparators ==> Holds(c, w)
  }

  ghost predicate ArmHolds(arm: Arm, w: Version) {
    match arm
    case Both(comparators) => AllHold(comparators, w)
    case Hyphen(left, right) => ValidPartial(right) && AtOrAbove(w, ZeroFilled(left)) && !Past(right, w)
  }

  // ---- Intervals and meaning agree.

  function BoundsOf(c: Comparator): Bounds {
    match c.op
    case Bare => OperatorBounds(Equal, c.p)
    case Equals => OperatorBounds(Equal, c.p)
    case Greater => OperatorBounds(Above, c.p)
    case GreaterOrEqual => OperatorBounds(AtLeast, c.p)
    case Lower => OperatorBounds(Less, c.p)
    case LowerOrEqual => OperatorBounds(AtMost, c.p)
    case Tilde => TildeBounds(c.p)
    case Caret => CaretBounds(c.p)
  }

  lemma AgreementThrough(w: Version, p: Partial)
    requires ValidPartial(p) && p.given != []
    ensures Agrees(w, p, CaretFixed(p.given)) <==> AgreesThroughFirstNonZero(w, p)
  {
    var n := CaretFixed(p.given);
    if Agrees(w, p, n) {
      forall i | 0 <= i < |p.given| && (forall j :: 0 <= j < i ==> p.given[j] == 0)
        ensures Components(w)[i] == p.given[i]
      {
        assert i < n;
      }
    }
    if AgreesThroughFirstNonZero(w, p) {
      forall i | 0 <= i < n
        ensures Components(w)[i] == p.given[i]
      {
        assert forall j :: 0 <= j < i ==> p.given[j] == 0;
      }
    }
  }

  lemma AboveIsPast(p: Partial, w: Version)
    requires ValidPartial(p) && p.given != [] && Release(w)
    ensures Contains(OperatorBounds(Above, p), w) <==> Past(p, w)
    ensures Contains(OperatorBounds(AtLeast, p), w) <==> AtOrAbove(w, ZeroFilled(p))
  {
    VersionTrichotomy(w, ZeroFilled(p));
    if !Full(p) {
      BelowIncrement(p, |p.given|, w);
      assert p.given[..|p.given|] == p.given;
      VersionTrichotomy(w, IncrementLastGiven(p));
      IncrementIsAbove(p, w);
    }
  }

  lemma IncrementIsAbove(p: Partial, w: Version)
    requires ValidPartial(p) && p.given != [] && !Full(p)
    ensures AtOrAbove(w, IncrementLastGiven(p)) ==> AtOrAbove(w, ZeroFilled(p))
  {
  }

  lemma BoundsMeanHolds(c: Comparator, w: Version)
    requires ValidPartial(c.p) && c.p.given != [] && Release(w)
    ensures Contains(BoundsOf(c), w) <==> Holds(c, w)
  {
    hide Contains, OperatorBounds, TildeBounds, CaretBounds, Past, Agrees, AgreesThroughFirstNonZero;
    AboveIsPast(c.p, w);
    OperatorsPartition(c.p, w);
    XRangeIsAgreement(c.p, w);
    TildeIsAgreement(c.p, w);
    CaretIsAgreement(c.p, w);
    AgreementThrough(w, c.p);
    VersionTrichotomy(w, ZeroFilled(c.p));
  }

  // ---- Reading a comparator.

  lemma OneOperator(op: Spelling, s: string)
    requires VersionText(s)
    ensures var t := Spell(op) + s;
            && t != "-" && !LoneOperator(t) && !IsWildcard(t)
            && (HasPrefix(t, "~") <==> op == Tilde) && (HasPrefix(t, "^") <==> op == Caret)
            && (op == Tilde || op == Caret ==> t[1..] == s)
            && (op == Bare || op == Equals ==> OperatorOf(t) == (Equal, s))
            && (op == Greater ==> OperatorOf(t) == (Above, s))
            && (op == GreaterOrEqual ==> OperatorOf(t) == (AtLeast, s))
            && (op == Lower ==> OperatorOf(t) == (Less, s))
            && (op == LowerOrEqual ==> OperatorOf(t) == (AtMost, s))
            && !OperatorChar(s[0])
  {
    var t := Spell(op) + s;
    var n := |Spell(op)|;
    assert t[n] == s[0] && t[n..] == s;
    if op == Bare {
      assert t == s;
    }
    assert t[0] != 'x' && t[0] != 'X' && t[0] != '*';
  }

  lemma ComparatorIsRead(c: Comparator)
    requires Written(c)
    ensures ComparatorBounds(Token(c)) == Some(BoundsOf(c))
  {
    hide PrintPartial, ParsePartial, OperatorBounds, TildeBounds, CaretBounds, OperatorOf, IsWildcard, LoneOperator;
    hide HasPrefix, VersionText;
    var s := PrintPartial(c.p);
    PrintedVersionText(c.p);
    ParsePrintedPartial(c.p);
    OneOperator(c.op, s);
    NotEmptyText(s);
  }

  lemma NotEmptyText(s: string)
    requires VersionText(s)
    ensures s != "" && s != "-" && !LoneOperator(s)
  {
  }

  // ---- Reading an arm.

  function TokensOf(comparators: seq<Comparator>): seq<string> {
    if comparators == [] then [] else [Token(comparators[0])] + TokensOf(comparators[1..])
  }

  lemma SpelledIsLone(op: Spelling)
    requires op != Bare
    ensures LoneOperator(Spell(op)) && Spell(op) != "" && Spell(op) != "-"
  {
  }

  /** A field that stands in an arm: not empty, without white space and without a bar. */
  predicate Solid(s: string) {
    s != "" && forall i :: 0 <= i < |s| ==> !IsSpace(s[i]) && s[i] != '|'
  }

  lemma FieldsAreSolid(c: Comparator)
    requires Written(c)
    ensures forall i :: 0 <= i < |FieldsOf(c)| ==> Solid(FieldsOf(c)[i]) && FieldsOf(c)[i] != "-"
  {
    hide PrintPartial;
    PrintedVersionText(c.p);
    OneOperator(c.op, PrintPartial(c.p));
    if c.apart {
      SpelledIsLone(c.op);
    }
  }

  lemma {:induction false} AllFieldsAreSolid(comparators: seq<Comparator>)
    requires forall c :: c in comparators ==> Written(c)
    ensures forall i :: 0 <= i < |AllFields(comparators)| ==>
                          Solid(AllFields(comparators)[i]) && AllFields(comparators)[i] != "-"
    ensures comparators != [] ==> AllFields(comparators) != []
  {
    if comparators != [] {
      hide FieldsOf, Solid, Written;
      FieldsAreSolid(comparators[0]);
      AllFieldsAreSolid(comparators[1..]);
      OneOrTwo(comparators[0]);
    }
  }

  lemma OneOrTwo(c: Comparator)
    ensures 1 <= |FieldsOf(c)| <= 2
  {
  }

  lemma {:induction false} TokensAreJoined(comparators: seq<Comparator>)
    requires forall c :: c in comparators ==> Written(c)
    requires NonEmptyFields(AllFields(comparators))
    ensures Tokens(AllFields(comparators)) == Some(TokensOf(comparators))
  {
    if comparators != [] {
      hide PrintPartial, LoneOperator, OperatorOf;
      var c, more := comparators[0], comparators[1..];
      assert c in comparators;
      PrintedVersionText(c.p);
      OneOperator(c.op, PrintPartial(c.p));
      OneOrTwo(c);
      var fields := AllFields(comparators);
      assert fields[|FieldsOf(c)|..] == AllFields(more);
      assert forall i :: 0 <= i < |AllFields(more)| ==> AllFields(more)[i] == fields[i + |FieldsOf(c)|];
      TokensAreJoined(more);
      if c.apart {
        SpelledIsLone(c.op);
        assert fields[0] == Spell(c.op) && fields[1] == PrintPartial(c.p) && fields[2..] == AllFields(more);
      } else {
        assert fields[0] == Token(c) && fields[1..] == AllFields(more);
      }
    }
  }

  lemma AllHoldCons(comparators: seq<Comparator>, w: Version)
    requires comparators != []
    ensures AllHold(comparators, w) <==> Holds(comparators[0], w) && AllHold(comparators[1..], w)
  {
    hide Holds;
    assert comparators == [comparators[0]] + comparators[1..];
    assert forall x :: x in comparators <==> x == comparators[0] || x in comparators[1..];
  }

  lemma {:induction false} TokensHold(comparators: seq<Comparator>, w: Version)
    requires forall c :: c in comparators ==> Written(c)
    requires Release(w)
    ensures EvaluateTokens(TokensOf(comparators), w) == Evaluation(AllHold(comparators, w), true)
  {
    hide Holds, AllHold, Token, ComparatorBounds, Contains;
    if comparators == [] {
      NothingToHold(w);
    } else {
      var c, more := comparators[0], comparators[1..];
      assert c in comparators;
      AllHoldCons(comparators, w);
      TokensHold(more, w);
      TokenHolds(c, TokensOf(more), w);
    }
  }

  lemma NothingToHold(w: Version)
    ensures AllHold([], w)
  {
  }

  lemma TokenHolds(c: Comparator, tokens: seq<string>, w: Version)
    requires Written(c) && Release(w)
    ensures EvaluateTokens([Token(c)] + tokens, w) ==
            if Holds(c, w) then EvaluateTokens(tokens, w) else Evaluation(false, true)
  {
    hide Token, ComparatorBounds, Contains, Holds, BoundsOf;
    ComparatorIsRead(c);
    BoundsMeanHolds(c, w);
    assert ([Token(c)] + tokens)[1..] == tokens;
  }

  lemma ArmIsEvaluated(arm: Arm, w: Version)
    requires WrittenArm(arm) && Release(w)
    requires NonEmptyFields(ArmFields(arm))
    ensures EvaluateArm(ArmFields(arm), w) == Evaluation(ArmHolds(arm, w), true)
  {
    match arm
    case Both(comparators) =>
      hide Tokens, EvaluateTokens, TokensOf, FieldsOf, Written, Holds;
      AllFieldsAreSolid(comparators);
      TokensAreJoined(comparators);
      TokensHold(comparators, w);
    case Hyphen(left, right) =>
      HyphenIsEvaluated(left, right, w);
  }

  lemma HyphenIsEvaluated(left: Partial, right: Partial, w: Version)
    requires Printable(left) && Printable(right) && Release(w)
    requires NonEmptyFields([PrintPartial(left), "-", PrintPartial(right)])
    ensures EvaluateArm([PrintPartial(left), "-", PrintPartial(right)], w) ==
            Evaluation(AtOrAbove(w, ZeroFilled(left)) && !Past(right, w), true)
  {
    hide PrintPartial, ParsePartial, Contains, OperatorBounds, Past, AtOrAbove;
    PrintedVersionText(left);
    PrintedVersionText(right);
    NotEmptyText(PrintPartial(left));
    NotEmptyText(PrintPartial(right));
    ParsePrintedPartial(left);
    ParsePrintedPartial(right);
    HyphenIsBothEnds(left, right, w);
    AboveIsPast(left, w);
    AboveIsPast(right, w);
    OperatorsPartition(right, w);
    var fields := [PrintPartial(left), "-", PrintPartial(right)];
    assert fields[1] == "-" && "-" in fields;
  }

  // ---- Reading a text.

  lemma ArmFieldsAreSolid(arm: Arm)
    requires WrittenArm(arm)
    ensures ArmFields(arm) != [] && forall i :: 0 <= i < |ArmFields(arm)| ==> Solid(ArmFields(arm)[i])
  {
    match arm
    case Both(comparators) =>
      hide FieldsOf, Solid, Written;
      AllFieldsAreSolid(comparators);
    case Hyphen(left, right) =>
      hide PrintPartial;
      PrintedVersionText(left);
      PrintedVersionText(right);
  }

  /** The shape of joined fields: no bar, no white space but single spaces inside. */
  ghost predicate Spaced(s: string) {
    && s != "" && !IsSpace(s[0]) && !IsSpace(Last(s)) && '|' !in s
    && forall i :: 0 <= i < |s| ==> IsSpace(s[i]) ==> s[i] == ' '
  }

  lemma {:induction false} JoinedIsSpaced(fields: seq<string>)
    requires fields != [] && forall i :: 0 <= i < |fields| ==> Solid(fields[i])
    ensures Spaced(Join(fields, ' '))
  {
    if |fields| > 1 {
      JoinedIsSpaced(Init(fields));
      var front, last := Join(Init(fields), ' '), Last(fields);
      assert Solid(last);
      var s := front + [' '] + last;
      assert s[0] == front[0] && Last(s) == Last(last);
    } else {
      assert Solid(fields[0]);
    }
  }

  lemma {:induction false} NonEmptyAll(pieces: seq<string>)
    requires forall i :: 0 <= i < |pieces| ==> pieces[i] != ""
    ensures NonEmpty(pieces) == pieces
  {
    if pieces != [] {
      NonEmptyAll(Init(pieces));
      NonEmptyInit(pieces);
      InitLast(pieces);
    }
  }

  lemma FieldsOfJoined(fields: seq<string>)
    requires fields != [] && forall i :: 0 <= i < |fields| ==> Solid(fields[i])
    ensures Fields(Join(fields, ' ')) == fields
  {
    hide Join, Split, NonEmpty;
    JoinedIsSpaced(fields);
    assert OneSpace(Join(fields, ' ')) == Join(fields, ' ');
    forall i | 0 <= i < |fields|
      ensures ' ' !in fields[i] && fields[i] != ""
    {
      assert Solid(fields[i]);
      assert IsSpace(' ');
    }
    SplitJoin(fields, ' ');
    NonEmptyAll(fields);
  }

  lemma BarAfter(s: string, rest: string)
    requires '|' !in s
    ensures SplitOn(s + "||" + rest, "||") == [s] + SplitOn(rest, "||")
  {
    hide SplitOn;
    var all := s + "||" + rest;
    forall i | 0 <= i < |s|
      ensures !HasPrefix(all[i..], "||")
    {
      assert all[i..][0] == s[i];
    }
    assert all[|s|..][..2] == "||";
    IndexIsUnique(all, "||", |s|);
    SplitOnAt(s, rest, "||");
  }

  function Texts(arms: seq<Arm>): (texts: seq<string>)
    ensures |texts| == |arms| && forall i :: 0 <= i < |arms| ==> texts[i] == ArmText(arms[i])
  {
    seq(|arms|, i requires 0 <= i < |arms| => ArmText(arms[i]))
  }

  lemma ArmTextIsSpaced(arm: Arm)
    requires WrittenArm(arm)
    ensures Spaced(ArmText(arm)) && Fields(ArmText(arm)) == ArmFields(arm) && NonEmptyFields(ArmFields(arm))
  {
    hide Join, Spaced, Fields, ArmFields;
    ArmFieldsAreSolid(arm);
    JoinedIsSpaced(ArmFields(arm));
    FieldsOfJoined(ArmFields(arm));
    assert forall i :: 0 <= i < |ArmFields(arm)| ==> Solid(ArmFields(arm)[i]);
  }

  lemma {:induction false} DeclarationIsSplit(arms: seq<Arm>)
    requires arms != [] && forall arm :: arm in arms ==> WrittenArm(arm)
    ensures SplitOn(DeclarationText(arms), "||") == Texts(arms)
    ensures var s := DeclarationText(arms); s != "" && !IsSpace(s[0]) && !IsSpace(Last(s))
  {
    hide ArmText, WrittenArm, SplitOn, IndexOf;
    assert arms[0] in arms;
    ArmTextIsSpaced(arms[0]);
    var first := ArmText(arms[0]);
    if |arms| == 1 {
      NoBar(first);
      assert Texts(arms) == [first];
    } else {
      DeclarationIsSplit(arms[1..]);
      var rest := DeclarationText(arms[1..]);
      BarAfter(first, rest);
      assert Texts(arms) == [first] + Texts(arms[1..]);
      var s := first + "||" + rest;
      assert s[0] == first[0] && Last(s) == Last(rest);
    }
  }

  lemma TrimmedText(s: string)
    requires s != "" && !IsSpace(s[0]) && !IsSpace(Last(s))
    ensures TrimSpace(s) == s
  {
  }

  lemma DeclaredArms(arms: seq<Arm>)
    requires arms != [] && forall arm :: arm in arms ==> WrittenArm(arm)
    ensures TrimSpace(DeclarationText(arms)) != ""
    ensures |ArmsOf(DeclarationText(arms))| == |arms|
    ensures forall i :: 0 <= i < |arms| ==> ArmsOf(DeclarationText(arms))[i] == ArmFields(arms[i])
  {
    hide ArmText, WrittenArm, SplitOn, IndexOf, Fields, ArmFields, DeclarationText, TrimSpace;
    DeclarationIsSplit(arms);
    TrimmedText(DeclarationText(arms));
    forall i | 0 <= i < |arms|
      ensures Fields(Texts(arms)[i]) == ArmFields(arms[i])
    {
      assert arms[i] in arms;
      ArmTextIsSpaced(arms[i]);
    }
  }

  lemma PrintedActual(w: Version)
    requires PrintableRelease(w)
    ensures ParseActual(PrintRelease(w)) == Some(w)
  {
    hide PrintRelease, ParsePartial;
    ParsePrintedRelease(w);
    assert ZeroFilled(Partial([w.major, w.minor, w.patch], None)) == w;
  }

  /** A printed declaration matches a printed release exactly when some arm's comparators all hold: each by the order of
      versions and agreement of components that its operator stands for. */
  lemma PrintedDeclarationsMean(arms: seq<Arm>, w: Version)
    requires arms != [] && forall arm :: arm in arms ==> WrittenArm(arm)
    requires PrintableRelease(w)
    ensures Matches(DeclarationText(arms), PrintRelease(w)) <==> exists arm :: arm in arms && ArmHolds(arm, w)
  {
    hide ArmText, WrittenArm, DeclarationText, ArmsOf, TrimSpace;
    hide ArmFields, EvaluateArm, ArmHolds, PrintRelease, ParseActual;
    PrintedActual(w);
    DeclaredArms(arms);
    var read := ArmsOf(DeclarationText(arms));
    forall i | 0 <= i < |arms|
      ensures NonEmptyFields(read[i]) && EvaluateArm(read[i], w) == Evaluation(ArmHolds(arms[i], w), true)
    {
      assert arms[i] in arms;
      ArmTextIsSpaced(arms[i]);
      ArmIsEvaluated(arms[i], w);
    }
    assert forall i :: 0 <= i < |arms| ==> read[i] in read && arms[i] in arms;
    assert forall fields :: fields in read ==> exists i :: 0 <= i < |arms| && read[i] == fields;
    assert forall arm :: arm in arms ==> exists i :: 0 <= i < |arms| && arms[i] == arm;
  }

  /** One comparator on its own, its operator attached or standing alone before the version. */
  lemma ComparatorMeans(c: Comparator, w: Version)
    requires Written(c) && PrintableRelease(w)
    ensures Matches((if c.apart then Spell(c.op) + " " else Spell(c.op)) + PrintPartial(c.p), PrintRelease(w)) <==>
            Holds(c, w)
  {
    hide PrintPartial, Holds, Matches, PrintRelease, Spell, Written;
    var arm := Both([c]);
    assert AllFields([c][1..]) == [] && [c][1..] == [];
    assert AllFields([c]) == FieldsOf(c) + [] == FieldsOf(c);
    OneComparatorText(c);
    PrintedDeclarationsMean([arm], w);
    assert arm in [arm] && c in [c];
  }

  lemma OneComparatorText(c: Comparator)
    ensures Join(FieldsOf(c), ' ') ==
            (if c.apart then Spell(c.op) + " " else Spell(c.op)) + PrintPartial(c.p)
  {
    hide PrintPartial, Spell;
    var fields := FieldsOf(c);
    if c.apart {
      assert Init(fields) == [fields[0]] && Join([fields[0]], ' ') == fields[0];
    }
  }

  /** A hyphen range on its own. */
  lemma HyphenMeans(left: Partial, right: Partial, w: Version)
    requires Printable(left) && Printable(right) && PrintableRelease(w)
    ensures Matches(PrintPartial(left) + " - " + PrintPartial(right), PrintRelease(w)) <==>
            AtOrAbove(w, ZeroFilled(left)) && !Past(right, w)
  {
    hide PrintPartial, Past, AtOrAbove, Matches, PrintRelease;
    var arm := Hyphen(left, right);
    var fields := [PrintPartial(left), "-", PrintPartial(right)];
    assert Init(fields) == [fields[0], "-"] && Init([fields[0], "-"]) == [fields[0]];
    assert Join([fields[0]], ' ') == fields[0];
    assert Join([fields[0], "-"], ' ') == fields[0] + " " + "-";
    assert Join(fields, ' ') == fields[0] + " - " + fields[2];
    PrintedDeclarationsMean([arm], w);
    assert arm in [arm];
  }

  // ---- Wildcards.

  lemma {:induction false} NumbersThenWildcards(given: seq<nat>, wild: seq<string>)
    requires forall i :: 0 <= i < |given| ==> given[i] <= MAX_COMPONENT
    requires forall part :: part in wild ==> part == "x" || part == "X" || part == "*"
    ensures ParseParts(Numbers(given) + wild) == Some(given)
  {
    hide PrintNat, ParseNumber;
    var parts := Numbers(given) + wild;
    if given != [] {
      hide IsWildcard;
      PrintedNumber(given[0]);
      NumbersThenWildcards(given[1..], wild);
      assert parts[1..] == Numbers(given[1..]) + wild && parts[0] == PrintNat(given[0]);
      assert given == [given[0]] + given[1..];
    } else {
      assert parts == wild;
      assert wild != [] ==> wild[0] in wild;
    }
  }

  lemma WildcardsHoldNothingElse(wild: seq<string>)
    requires forall part :: part in wild ==> part == "x" || part == "X" || part == "*"
    ensures forall i :: 0 <= i < |wild| ==> |wild[i]| == 1 && '.' !in wild[i] && '-' !in wild[i] && '+' !in wild[i]
    ensures forall i :: 0 <= i < |wild| ==> wild[i][0] != 'v'
  {
    assert forall i :: 0 <= i < |wild| ==> wild[i] in wild;
  }

  lemma {:induction false} JoinHolds(parts: seq<string>, c: char)
    requires c != '.' && forall i :: 0 <= i < |parts| ==> c !in parts[i]
    ensures c !in Join(parts, '.')
  {
    if |parts| > 1 {
      JoinHolds(Init(parts), c);
    }
  }

  lemma {:induction false} JoinStarts(parts: seq<string>)
    requires parts != [] && parts[0] != ""
    ensures Join(parts, '.') != "" && Join(parts, '.')[0] == parts[0][0]
  {
    if |parts| > 1 {
      JoinStarts(Init(parts));
    }
  }

  /** Numbers and then wildcards, three parts at most: only the numbers are given. */
  lemma WildcardsGiveNothing(given: seq<nat>, wild: seq<string>)
    requires 1 <= |given| + |wild| <= 3 && forall i :: 0 <= i < |given| ==> given[i] <= MAX_COMPONENT
    requires forall part :: part in wild ==> part == "x" || part == "X" || part == "*"
    ensures ParsePartial(Join(Numbers(given) + wild, '.')) == Some(Partial(given, None))
  {
    hide PrintNat, Numbers, Join, Split, ParseParts, IndexOf, Cut, TrimPrefix;
    var parts := Numbers(given) + wild;
    var text := Join(parts, '.');
    NumbersAndWildcards(given, wild);
    JoinHolds(parts, '-');
    JoinHolds(parts, '+');
    JoinStarts(parts);
    SplitJoin(parts, '.');
    CutWithoutHyphen(text);
    NumbersThenWildcards(given, wild);
    NoLeadingV(text);
  }

  lemma NumbersAndWildcards(given: seq<nat>, wild: seq<string>)
    requires forall part :: part in wild ==> part == "x" || part == "X" || part == "*"
    ensures var parts := Numbers(given) + wild;
            && |parts| == |given| + |wild|
            && (forall i :: 0 <= i < |parts| ==>
                  parts[i] != "" && '.' !in parts[i] && '-' !in parts[i] && '+' !in parts[i])
            && (forall i :: 0 <= i < |parts| ==> parts[i][0] != 'v')
  {
    hide PrintNat;
    NumbersAreDigits(given);
    WildcardsHoldNothingElse(wild);
    var parts := Numbers(given) + wild;
    assert forall i :: 0 <= i < |parts| ==> parts[i] == if i < |given| then Numbers(given)[i] else wild[i - |given|];
  }

  lemma NoLeadingV(text: string)
    requires text != "" && text[0] != 'v'
    ensures TrimPrefix(text, "v") == text
  {
  }

  /** A wildcard alone matches every release. */
  lemma WildcardMatchesAll(star: string, w: Version)
    requires star == "*" || star == "x" || star == "X"
    requires PrintableRelease(w)
    ensures Matches(star, PrintRelease(w))
  {
    hide PrintRelease, ParseActual, Split, NonEmpty, SplitOn;
    PrintedActual(w);
    TrimmedText(star);
    NoBar(star);
    assert [star] != [] && Solid([star][0]);
    FieldsOfJoined([star]);
    assert Join([star], ' ') == star;
    assert ArmsOf(star) == [[star]];
    assert [star][1..] == [] && Tokens([]) == Some([]) && [star] + [] == [star];
    assert "-" !in [star] && Tokens([star]) == Some([star]);
    assert EvaluateTokens([], w) == Evaluation(true, true);
    assert EvaluateArm([star], w) == Evaluation(true, true);
    assert [star] in [[star]];
  }
}
