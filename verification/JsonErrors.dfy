/** Which error a rejected token stream gets: the first token that does not continue a strict beginning decides. */
module JsonErrors {
  import opened Text
  import opened StrictJson

  /** An open container and what has been read of it; in an object the value of `name` comes next. */
  datatype Frame = InArray(items: seq<Doc>) | InObject(members: seq<Member>, name: string)

  /** Where reading has come to inside the open containers: before a value (or the end of an array), or inside one more
      object, before a name or its end. */
  datatype Spot = BeforeValue | BeforeName(members: seq<Member>)

  function PrintFrames(frames: seq<Frame>): seq<Token> {
    if frames == [] then []
    else
      (match frames[0]
       case InArray(items) => [OpenArray] + PrintItems(items)
       case InObject(members, name) => [OpenObject] + PrintMembers(members) + [Str(name)])
      + PrintFrames(frames[1..])
  }

  function PrintSpot(spot: Spot): seq<Token> {
    match spot
    case BeforeValue => []
    case BeforeName(members) => [OpenObject] + PrintMembers(members)
  }

  function Names(members: seq<Member>): set<string> {
    set i | 0 <= i < |members| :: members[i].name
  }

  /** The open containers could still become a strict document: bounded nesting, distinct names. */
  ghost predicate StrictFrames(frames: seq<Frame>, depth: nat) {
    frames == [] ||
    (&& depth < MAX_DEPTH
     && (match frames[0]
         case InArray(items) => ItemsWithin(items, MAX_DEPTH - depth - 1)
         case InObject(members, name) => MembersWithin(members, {}, MAX_DEPTH - depth - 1) && name !in Names(members))
     && StrictFrames(frames[1..], depth + 1))
  }

  ghost predicate StrictSpot(spot: Spot, depth: nat) {
    spot.BeforeName? ==> depth < MAX_DEPTH && MembersWithin(spot.members, {}, MAX_DEPTH - depth - 1)
  }

  /** Why the tokens `rest` cannot start a value at this depth; None when their first one can. */
  function ValueMisfit(rest: seq<Token>, depth: nat): Option<Error> {
    if rest == [] then Some(EndOfInput)
    else match rest[0]
      case Malformed(_) => Some(NotJson)
      case Num(None) => Some(NotADouble)
      case OpenObject => if depth >= MAX_DEPTH then Some(TooDeep) else None
      case OpenArray => if depth >= MAX_DEPTH then Some(TooDeep) else None
      case CloseObject => Some(if depth >= MAX_DEPTH then TooDeep else UnexpectedDelimiter)
      case CloseArray => Some(if depth >= MAX_DEPTH then TooDeep else UnexpectedDelimiter)
      case _ => None
  }

  /** Why the tokens `rest` cannot go on at the spot. */
  function Misfit(frames: seq<Frame>, spot: Spot, rest: seq<Token>, depth: nat): Option<Error> {
    if spot.BeforeName? then
      if rest == [] then Some(EndOfInput)
      else match rest[0]
        case Malformed(_) => Some(NotJson)
        case CloseObject => None
        case CloseArray => Some(BadClosing)
        case Str(name) => if name in Names(spot.members) then Some(DuplicateMember(name)) else None
        case _ => Some(NameNotString)
    else if frames != [] && Last(frames).InArray? && rest != [] && rest[0] == CloseArray then None
    else if frames != [] && Last(frames).InArray? && rest != [] && rest[0] == CloseObject then Some(BadClosing)
    else ValueMisfit(rest, depth)
  }

  /** A strict beginning, and after it tokens that cannot go on, for the given reason. */
  ghost predicate Blames(ts: seq<Token>, depth: nat, error: Error, frames: seq<Frame>, spot: Spot, rest: seq<Token>) {
    && StrictFrames(frames, depth) && StrictSpot(spot, depth + |frames|)
    && ts == PrintFrames(frames) + PrintSpot(spot) + rest
    && Misfit(frames, spot, rest, depth + |frames|) == Some(error)
  }

  // ---- From a failure to what it blames.

  lemma NamesSnoc(members: seq<Member>, m: Member)
    ensures Names(members + [m]) == Names(members) + {m.name}
  {
    var more := members + [m];
    assert forall i :: 0 <= i < |members| ==> more[i] == members[i];
    assert more[|members|] == m;
  }

  lemma {:induction false} PrintMembersSnoc(members: seq<Member>, m: Member)
    ensures PrintMembers(members + [m]) == PrintMembers(members) + ([Str(m.name)] + Print(m.value))
  {
    if members == [] {
      assert [] + [m] == [m] && [m][1..] == [];
      MembersCons(m, []);
      NothingAdded([Str(m.name)] + Print(m.value));
    } else {
      var head, tail := members[0], members[1..];
      assert members + [m] == [head] + (tail + [m]) && members == [head] + tail;
      PrintMembersSnoc(tail, m);
      MembersCons(head, tail + [m]);
      MembersCons(head, tail);
      Assoc([Str(head.name)] + Print(head.value), PrintMembers(tail), [Str(m.name)] + Print(m.value));
    }
  }

  lemma {:induction false} PrintItemsSnoc(items: seq<Doc>, d: Doc)
    ensures PrintItems(items + [d]) == PrintItems(items) + Print(d)
  {
    if items == [] {
      assert [] + [d] == [d] && [d][1..] == [];
      ItemsCons(d, []);
      NothingAdded(Print(d));
    } else {
      var head, tail := items[0], items[1..];
      assert items + [d] == [head] + (tail + [d]) && items == [head] + tail;
      PrintItemsSnoc(tail, d);
      ItemsCons(head, tail + [d]);
      ItemsCons(head, tail);
      Assoc(Print(head), PrintItems(tail), Print(d));
    }
  }

  lemma FramesCons(f: Frame, frames: seq<Frame>)
    ensures PrintFrames([f] + frames) == PrintFrames([f]) + PrintFrames(frames)
    ensures PrintFrames([f]) ==
            match f
            case InArray(items) => [OpenArray] + PrintItems(items)
            case InObject(members, name) => [OpenObject] + PrintMembers(members) + [Str(name)]
  {
    assert ([f] + frames)[1..] == frames && [f][1..] == [];
    NothingAdded(PrintFrames([f]));
  }

  /** Blame inside a container is blame of the whole. */
  lemma BlameOuter(f: Frame, ts: seq<Token>, depth: nat, error: Error, frames: seq<Frame>, spot: Spot, rest: seq<Token>)
    requires StrictFrames([f], depth) && Blames(ts, depth + 1, error, frames, spot, rest)
    requires f.InArray? && frames == [] && spot == BeforeValue ==>
               rest == [] || (rest[0] != CloseArray && rest[0] != CloseObject)
    ensures Blames(PrintFrames([f]) + ts, depth, error, [f] + frames, spot, rest)
  {
    hide ItemsWithin, MembersWithin, PrintSpot;
    FramesCons(f, frames);
    assert ([f] + frames)[1..] == frames && frames != [] ==> Last([f] + frames) == Last(frames);
    Assoc(PrintFrames([f]), PrintFrames(frames), PrintSpot(spot));
    Assoc(PrintFrames([f]), PrintFrames(frames) + PrintSpot(spot), rest);
  }

  lemma BlameHere(ts: seq<Token>, depth: nat, error: Error)
    requires ValueMisfit(ts, depth) == Some(error)
    ensures Blames(ts, depth, error, [], BeforeValue, ts)
  {
    assert [] + [] + ts == ts;
  }

  lemma {:induction false} BlameDoc(ts: seq<Token>, depth: nat)
    returns (frames: seq<Frame>, spot: Spot, rest: seq<Token>)
    requires ParseDoc(ts, depth).Failed?
    ensures Blames(ts, depth, ParseDoc(ts, depth).error, frames, spot, rest)
    ensures frames == [] && spot == BeforeValue ==> rest == ts
    decreases |ts|, 0
  {
    hide Blames;
    if ts != [] && ts[0] == OpenObject && depth < MAX_DEPTH {
      assert Names([]) == {};
      frames, spot, rest := BlameMembers(ts[1..], [], depth + 1);
      assert [OpenObject] + PrintMembers([]) + ts[1..] == ts;
    } else if ts != [] && ts[0] == OpenArray && depth < MAX_DEPTH {
      frames, spot, rest := BlameItems(ts[1..], [], depth + 1);
      assert [OpenArray] + PrintItems([]) + ts[1..] == ts;
    } else {
      BlameHere(ts, depth, ParseDoc(ts, depth).error);
      return [], BeforeValue, ts;
    }
  }

  lemma {:induction false} BlameItems(ts: seq<Token>, done: seq<Doc>, depth: nat)
    returns (frames: seq<Frame>, spot: Spot, rest: seq<Token>)
    requires 1 <= depth <= MAX_DEPTH && ItemsWithin(done, MAX_DEPTH - depth) && ParseItems(ts, depth).Failed?
    ensures Blames([OpenArray] + PrintItems(done) + ts, depth - 1, ParseItems(ts, depth).error, frames, spot, rest)
    ensures frames != []
    decreases |ts|, 1
  {
    var f := InArray(done);
    FramesCons(f, []);
    assert [f][1..] == [] && StrictFrames([f], depth - 1);
    if More(ts) && ParseDoc(ts, depth).Parsed? {
      var first := ParseDoc(ts, depth);
      ParseDocIsSound(ts, depth);
      PrintItemsSnoc(done, first.value);
      Assoc(PrintItems(done), Print(first.value), first.rest);
      Assoc([OpenArray], PrintItems(done), ts);
      Assoc([OpenArray], PrintItems(done) + Print(first.value), first.rest);
      hide Blames;
      frames, spot, rest := BlameItems(first.rest, done + [first.value], depth);
    } else if More(ts) {
      frames, spot, rest := BlameDoc(ts, depth);
      BlameOuter(f, ts, depth - 1, ParseDoc(ts, depth).error, frames, spot, rest);
      frames := [f] + frames;
    } else {
      frames, spot, rest := [f], BeforeValue, ts;
      NothingAdded(PrintFrames([f]));
    }
  }

  lemma {:induction false} BlameMembers(ts: seq<Token>, done: seq<Member>, depth: nat)
    returns (frames: seq<Frame>, spot: Spot, rest: seq<Token>)
    requires 1 <= depth <= MAX_DEPTH && MembersWithin(done, {}, MAX_DEPTH - depth)
    requires ParseMembers(ts, Names(done), depth).Failed?
    ensures Blames([OpenObject] + PrintMembers(done) + ts, depth - 1, ParseMembers(ts, Names(done), depth).error,
                   frames, spot, rest)
    ensures frames != [] || spot.BeforeName?
    decreases |ts|, 1
  {
    hide Blames, MembersWithin, PrintMembers, Print, Names;
    if More(ts) && ts[0].Str? && ts[0].s !in Names(done) {
      var name, tail := ts[0].s, ts[1..];
      if ParseDoc(tail, depth).Parsed? {
        var first := ParseDoc(tail, depth);
        var m := Member(name, first.value);
        MemberRead(ts, done, depth, m, first.rest);
        frames, spot, rest := BlameMembers(first.rest, done + [m], depth);
      } else {
        frames, spot, rest := BlameDoc(tail, depth);
        BlameValueOf(ts, done, depth, frames, spot, rest);
        frames := [InObject(done, name)] + frames;
      }
    } else {
      BlameBeforeName(ts, done, depth);
      frames, spot, rest := [], BeforeName(done), ts;
    }
  }

  /** Another member has been read. */
  lemma MemberRead(ts: seq<Token>, done: seq<Member>, depth: nat, m: Member, rest: seq<Token>)
    requires 1 <= depth <= MAX_DEPTH && MembersWithin(done, {}, MAX_DEPTH - depth)
    requires ts != [] && ts[0] == Str(m.name) && m.name !in Names(done)
    requires ParseDoc(ts[1..], depth) == Parsed(m.value, rest)
    ensures MembersWithin(done + [m], {}, MAX_DEPTH - depth) && Names(done + [m]) == Names(done) + {m.name}
    ensures [OpenObject] + PrintMembers(done) + ts == [OpenObject] + PrintMembers(done + [m]) + rest
  {
    hide MembersWithin, PrintMembers, Print, Names, ParseDoc;
    assert ts == [Str(m.name)] + ts[1..];
    ParseDocIsSound(ts[1..], depth);
    MembersWithinSnoc(done, m, MAX_DEPTH - depth);
    NamesSnoc(done, m);
    PrintMembersSnoc(done, m);
    Assoc([Str(m.name)], Print(m.value), rest);
    Assoc(PrintMembers(done), [Str(m.name)] + Print(m.value), rest);
    Assoc([OpenObject], PrintMembers(done), ts);
    Assoc([OpenObject], PrintMembers(done + [m]), rest);
  }

  /** What is blamed in a member's value is blamed in the object. */
  lemma BlameValueOf(ts: seq<Token>, done: seq<Member>, depth: nat, frames: seq<Frame>, spot: Spot, rest: seq<Token>)
    requires 1 <= depth <= MAX_DEPTH && MembersWithin(done, {}, MAX_DEPTH - depth)
    requires ts != [] && ts[0].Str? && ts[0].s !in Names(done) && ParseDoc(ts[1..], depth).Failed?
    requires Blames(ts[1..], depth, ParseDoc(ts[1..], depth).error, frames, spot, rest)
    ensures Blames([OpenObject] + PrintMembers(done) + ts, depth - 1, ParseDoc(ts[1..], depth).error,
                   [InObject(done, ts[0].s)] + frames, spot, rest)
  {
    hide MembersWithin, Names, ParseDoc, Misfit, PrintSpot;
    var f := InObject(done, ts[0].s);
    FramesCons(f, []);
    assert [f][1..] == [] && StrictFrames([f], depth - 1);
    assert ts == [ts[0]] + ts[1..];
    Assoc([OpenObject] + PrintMembers(done), [ts[0]], ts[1..]);
    hide Blames;
    BlameOuter(f, ts[1..], depth - 1, ParseDoc(ts[1..], depth).error, frames, spot, rest);
  }

  lemma BlameBeforeName(ts: seq<Token>, done: seq<Member>, depth: nat)
    requires 1 <= depth <= MAX_DEPTH && MembersWithin(done, {}, MAX_DEPTH - depth)
    requires ParseMembers(ts, Names(done), depth).Failed? && !(More(ts) && ts[0].Str? && ts[0].s !in Names(done))
    ensures Blames([OpenObject] + PrintMembers(done) + ts, depth - 1, ParseMembers(ts, Names(done), depth).error,
                   [], BeforeName(done), ts)
  {
    hide MembersWithin, Names, ParseDoc, PrintMembers;
    NothingAdded(PrintSpot(BeforeName(done)));
  }

  lemma MembersWithinSnoc(done: seq<Member>, m: Member, n: int)
    requires MembersWithin(done, {}, n) && m.name !in Names(done) && Distinct(m.value) && NestsWithin(m.value, n)
    ensures MembersWithin(done + [m], {}, n)
  {
    var all := done + [m];
    assert forall i :: 0 <= i < |done| ==> all[i] == done[i] && done[i].name in Names(done);
  }

  // ---- From what is blamed to the failure.

  /** Printed items before a failing rest do not change the failure. */
  lemma {:induction false} ItemsThenFailure(items: seq<Doc>, tail: seq<Token>, depth: nat)
    requires ItemsWithin(items, MAX_DEPTH - depth) && ParseItems(tail, depth).Failed?
    ensures ParseItems(PrintItems(items) + tail, depth) == ParseItems(tail, depth)
  {
    if items == [] {
      assert PrintItems(items) + tail == tail;
    } else {
      var after := PrintItems(items[1..]) + tail;
      Assoc(Print(items[0]), PrintItems(items[1..]), tail);
      PrintStart(items[0]);
      ParsePrinted(items[0], after, depth);
      ItemsThenFailure(items[1..], tail, depth);
      assert More(PrintItems(items) + tail);
    }
  }

  lemma {:induction false} MembersThenFailure(members: seq<Member>, seen: set<string>, tail: seq<Token>, depth: nat)
    requires MembersWithin(members, seen, MAX_DEPTH - depth)
    requires ParseMembers(tail, seen + Names(members), depth).Failed?
    ensures ParseMembers(PrintMembers(members) + tail, seen, depth) == ParseMembers(tail, seen + Names(members), depth)
    decreases |members|
  {
    if members == [] {
      assert PrintMembers(members) + tail == tail && seen + Names(members) == seen;
    } else {
      var m, more := members[0], members[1..];
      var after := PrintMembers(more) + tail;
      var ts := PrintMembers(members) + tail;
      assert ts[1..] == Print(m.value) + after by {
        Assoc([Str(m.name)] + Print(m.value), PrintMembers(more), tail);
        Assoc([Str(m.name)], Print(m.value), after);
      }
      assert ts[0] == Str(m.name) && More(ts);
      ParsePrinted(m.value, after, depth);
      assert Names(members) == {m.name} + Names(more) by { NamesCons(m, more); }
      assert seen + {m.name} + Names(more) == seen + Names(members);
      MembersThenFailure(more, seen + {m.name}, tail, depth);
    }
  }

  lemma NamesCons(m: Member, more: seq<Member>)
    ensures Names([m] + more) == {m.name} + Names(more)
    ensures forall members: seq<Member> :: members != [] && members[0] == m && members[1..] == more ==>
                                             Names(members) == {m.name} + Names(more)
  {
    var all := [m] + more;
    assert all[0] == m && forall i :: 0 <= i < |more| ==> all[i + 1] == more[i];
    assert forall i :: 1 <= i < |all| ==> all[i] == more[i - 1];
    forall members: seq<Member> | members != [] && members[0] == m && members[1..] == more
      ensures members == all
    {
      assert members == [members[0]] + members[1..];
    }
  }

  lemma ObjectFails(members: seq<Member>, tail: seq<Token>, depth: nat, error: Error)
    requires depth < MAX_DEPTH && MembersWithin(members, {}, MAX_DEPTH - depth - 1)
    requires ParseMembers(tail, Names(members), depth + 1) == Failed(error)
    ensures ParseDoc([OpenObject] + PrintMembers(members) + tail, depth) == Failed(error)
  {
    assert {} + Names(members) == Names(members);
    MembersThenFailure(members, {}, tail, depth + 1);
    Assoc([OpenObject], PrintMembers(members), tail);
    assert ([OpenObject] + PrintMembers(members) + tail)[1..] == PrintMembers(members) + tail;
  }

  lemma ArrayFails(items: seq<Doc>, tail: seq<Token>, depth: nat, error: Error)
    requires depth < MAX_DEPTH && ItemsWithin(items, MAX_DEPTH - depth - 1)
    requires ParseItems(tail, depth + 1) == Failed(error)
    ensures ParseDoc([OpenArray] + PrintItems(items) + tail, depth) == Failed(error)
  {
    ItemsThenFailure(items, tail, depth + 1);
    Assoc([OpenArray], PrintItems(items), tail);
    assert ([OpenArray] + PrintItems(items) + tail)[1..] == PrintItems(items) + tail;
  }

  lemma {:induction false} BlamedFails(ts: seq<Token>, depth: nat, error: Error, frames: seq<Frame>, spot: Spot,
                                       rest: seq<Token>)
    requires Blames(ts, depth, error, frames, spot, rest)
    ensures ParseDoc(ts, depth) == Failed(error)
    decreases |frames|
  {
    hide ParseDoc, Misfit, MembersWithin, ItemsWithin, PrintSpot;
    if frames == [] {
      BlamedHereFails(ts, depth, error, spot, rest);
    } else {
      var inner, tail := frames[1..], PrintFrames(frames[1..]) + PrintSpot(spot) + rest;
      assert frames == [frames[0]] + inner;
      FramesCons(frames[0], inner);
      Assoc(PrintFrames([frames[0]]), PrintFrames(inner), PrintSpot(spot));
      Assoc(PrintFrames([frames[0]]), PrintFrames(inner) + PrintSpot(spot), rest);
      assert ts == PrintFrames([frames[0]]) + tail;
      InnerFails(frames[0], inner, tail, depth, error, spot, rest);
    }
  }

  lemma BlamedHereFails(ts: seq<Token>, depth: nat, error: Error, spot: Spot, rest: seq<Token>)
    requires Blames(ts, depth, error, [], spot, rest)
    ensures ParseDoc(ts, depth) == Failed(error)
  {
    if spot.BeforeName? {
      NothingAdded(PrintSpot(spot));
      hide ParseDoc, MembersWithin, Names;
      ObjectFails(spot.members, rest, depth, error);
    } else {
      assert ts == rest;
    }
  }

  /** The first token of an item, or the token after a comma, does not fit. */
  lemma ItemFails(f: Frame, tail: seq<Token>, depth: nat, error: Error, rest: seq<Token>)
    requires f.InArray? && StrictFrames([f], depth) && tail == [] + PrintSpot(BeforeValue) + rest
    requires Misfit([f], BeforeValue, rest, depth + 1) == Some(error)
    ensures ParseDoc(PrintFrames([f]) + tail, depth) == Failed(error)
  {
    FramesCons(f, []);
    assert tail == rest && Last([f]) == f;
    hide MembersWithin;
    ArrayFails(f.items, tail, depth, error);
  }

  lemma {:induction false} InnerFails(f: Frame, inner: seq<Frame>, tail: seq<Token>, depth: nat, error: Error,
                                      spot: Spot, rest: seq<Token>)
    requires StrictFrames([f] + inner, depth) && StrictSpot(spot, depth + 1 + |inner|)
    requires tail == PrintFrames(inner) + PrintSpot(spot) + rest
    requires Misfit([f] + inner, spot, rest, depth + 1 + |inner|) == Some(error)
    ensures ParseDoc(PrintFrames([f]) + tail, depth) == Failed(error)
    decreases |inner| + 1, 0
  {
    hide ParseDoc, MembersWithin, ItemsWithin, PrintSpot;
    FramesCons(f, []);
    assert ([f] + inner)[1..] == inner;
    if f.InArray? && inner == [] && spot == BeforeValue {
      assert [f] + inner == [f] && PrintFrames(inner) == [];
      ItemFails(f, tail, depth, error, rest);
    } else {
      assert inner != [] ==> Last([f] + inner) == Last(inner);
      hide Misfit;
      BlamedFails(tail, depth + 1, error, inner, spot, rest);
      if f.InArray? {
        OpensContainer(inner, spot, rest);
        ArrayFails(f.items, tail, depth, error);
      } else {
        var named := [Str(f.name)] + tail;
        assert named[1..] == tail && More(named);
        Assoc([OpenObject] + PrintMembers(f.members), [Str(f.name)], tail);
        ObjectFails(f.members, named, depth, error);
      }
    }
  }

  lemma OpensContainer(inner: seq<Frame>, spot: Spot, rest: seq<Token>)
    requires inner != [] || spot.BeforeName?
    ensures More(PrintFrames(inner) + PrintSpot(spot) + rest)
  {
    if inner != [] {
      FramesCons(inner[0], inner[1..]);
      assert inner == [inner[0]] + inner[1..];
    }
  }

  // ---- The errors of rejected streams.

  /** A stream fails with an error exactly when it has a strict beginning and then a token, or its end, that does not
      fit for this reason; or when it is a whole strict document with more behind it. */
  lemma FailsIffBlamed(ts: seq<Token>, error: Error)
    ensures ParseStrict(ts) == Failed(error) <==>
            || (exists frames, spot, rest: seq<Token> :: Blames(ts, 0, error, frames, spot, rest))
            || (exists d, rest: seq<Token> ::
                  MoreBehind(ts, d, rest) && error == if rest[0].Malformed? then NotJson else Trailing)
  {
    hide Blames, ParseDoc, Print, Distinct, NestsWithin;
    if ParseDoc(ts, 0).Failed? {
      var frames, spot, rest := BlameDoc(ts, 0);
    } else {
      ParseDocIsSound(ts, 0);
      assert ParseStrict(ts) == Failed(error) ==> MoreBehind(ts, ParseDoc(ts, 0).value, ParseDoc(ts, 0).rest);
    }
    if frames, spot, rest :| Blames(ts, 0, error, frames, spot, rest) {
      BlamedFails(ts, 0, error, frames, spot, rest);
    }
    if d, rest: seq<Token> :| MoreBehind(ts, d, rest) && error == if rest[0].Malformed? then NotJson else Trailing {
      ParsePrinted(d, rest, 0);
    }
  }

  /** The stream is a whole strict document `d` and something behind it. */
  ghost predicate MoreBehind(ts: seq<Token>, d: Doc, rest: seq<Token>) {
    ts == Print(d) + rest && Distinct(d) && NestsWithin(d, 10_000) && rest != []
  }

  /** The stream repeats `name` in an object after a strict beginning. */
  ghost predicate RepeatsName(ts: seq<Token>, name: string, frames: seq<Frame>, members: seq<Member>,
                              rest: seq<Token>) {
    && StrictFrames(frames, 0) && |frames| < MAX_DEPTH
    && MembersWithin(members, {}, MAX_DEPTH - |frames| - 1) && name in Names(members)
    && ts == PrintFrames(frames) + ([OpenObject] + PrintMembers(members)) + ([Str(name)] + rest)
  }

  /** A repeated name is reported exactly when a strict beginning stands before it, whatever follows. */
  lemma DuplicateIff(ts: seq<Token>, name: string)
    ensures ParseStrict(ts) == Failed(DuplicateMember(name)) <==>
            exists frames, members, rest :: RepeatsName(ts, name, frames, members, rest)
  {
    hide StrictFrames, MembersWithin, Names, PrintFrames, PrintMembers, ParseStrict;
    FailsIffBlamed(ts, DuplicateMember(name));
    forall frames, spot, rest | Blames(ts, 0, DuplicateMember(name), frames, spot, rest)
      ensures spot.BeforeName? && rest != [] && RepeatsName(ts, name, frames, spot.members, rest[1..])
    {
      assert rest == [rest[0]] + rest[1..];
    }
    forall frames, members, rest | RepeatsName(ts, name, frames, members, rest)
      ensures Blames(ts, 0, DuplicateMember(name), frames, BeforeName(members), [Str(name)] + rest)
    {
    }
  }

  /** A delimiter stands where a value must come inside 10000 open containers. */
  ghost predicate OverNests(ts: seq<Token>, frames: seq<Frame>, delimiter: Token, rest: seq<Token>) {
    && StrictFrames(frames, 0) && |frames| == 10_000
    && (|| delimiter == OpenObject || delimiter == OpenArray
        || ((delimiter == CloseObject || delimiter == CloseArray) && Last(frames).InObject?))
    && ts == PrintFrames(frames) + ([delimiter] + rest)
  }

  /** "Too deep" is reported exactly there. */
  lemma TooDeepIff(ts: seq<Token>)
    ensures ParseStrict(ts) == Failed(TooDeep) <==>
            exists frames, delimiter, rest :: OverNests(ts, frames, delimiter, rest)
  {
    hide StrictFrames, MembersWithin, Names, PrintFrames, PrintMembers, ParseStrict;
    FailsIffBlamed(ts, TooDeep);
    forall frames, spot, rest | Blames(ts, 0, TooDeep, frames, spot, rest)
      ensures rest != [] && OverNests(ts, frames, rest[0], rest[1..])
    {
      FramesAreBounded(frames, 0);
      NothingAdded(PrintFrames(frames));
      assert rest == [rest[0]] + rest[1..];
    }
    forall frames, delimiter, rest | OverNests(ts, frames, delimiter, rest)
      ensures Blames(ts, 0, TooDeep, frames, BeforeValue, [delimiter] + rest)
    {
      NothingAdded(PrintFrames(frames));
    }
  }

  lemma {:induction false} FramesAreBounded(frames: seq<Frame>, depth: nat)
    requires StrictFrames(frames, depth) && depth <= MAX_DEPTH
    ensures depth + |frames| <= MAX_DEPTH
    decreases |frames|
  {
    if frames != [] {
      FramesAreBounded(frames[1..], depth + 1);
    }
  }

  /** "Trailing" is reported exactly for a strict document with another token behind it. */
  lemma TrailingIff(ts: seq<Token>)
    ensures ParseStrict(ts) == Failed(Trailing) <==>
            exists d, rest: seq<Token> :: MoreBehind(ts, d, rest) && !rest[0].Malformed?
  {
    FailsIffBlamed(ts, Trailing);
    hide ParseStrict, MoreBehind;
    forall frames, spot, rest
      ensures !Blames(ts, 0, Trailing, frames, spot, rest)
    {
    }
  }

  /** The stream of `{"a":1,"a":2}`. */
  lemma RepeatedNameExample()
    ensures ParseStrict([OpenObject, Str("a"), Num(Some(1.0)), Str("a"), Num(Some(2.0)), CloseObject]) ==
            Failed(DuplicateMember("a"))
  {
    var ts := [OpenObject, Str("a"), Num(Some(1.0)), Str("a"), Num(Some(2.0)), CloseObject];
    var members, rest := [Member("a", DNum(1.0))], [Num(Some(2.0)), CloseObject];
    assert members[1..] == [] && PrintMembers(members) == [Str("a"), Num(Some(1.0))];
    assert members[0].name in Names(members);
    assert ts == PrintFrames([]) + ([OpenObject] + PrintMembers(members)) + ([Str("a")] + rest);
    assert RepeatsName(ts, "a", [], members, rest);
    DuplicateIff(ts, "a");
  }
}
