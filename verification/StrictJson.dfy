/** The strict JSON parser over a token cursor, and equality of what it parses. */
module StrictJson {
  import opened Text

  const MAX_DEPTH: nat := 10_000

  /** Tokens of `encoding/json`, which consumes commas and colons itself. A number token carries its double, if finite.
      `Malformed` is where the text stops being JSON; `closes` says that a closing delimiter stands there. */
  datatype Token =
    | OpenObject | CloseObject | OpenArray | CloseArray
    | Null | Bool(b: bool) | Num(n: Option<real>) | Str(s: string)
    | Malformed(closes: bool)

  /** A document as written: members in order. */
  datatype Doc =
    | DNull | DBool(b: bool) | DNum(n: real) | DStr(s: string)
    | DArray(items: seq<Doc>) | DObject(members: seq<Member>)

  datatype Member = Member(name: string, value: Doc)

  /** A parsed value: members as a map. */
  datatype Value =
    | VNull | VBool(b: bool) | VNum(n: real) | VStr(s: string)
    | VArray(items: seq<Value>) | VObject(members: map<string, Value>)

  datatype Error =
    | EndOfInput | NotJson | UnexpectedDelimiter | TooDeep | NotADouble | NameNotString
    | DuplicateMember(name: string) | BadClosing | Trailing | NotUtf8 | LoneSurrogate

  datatype Outcome<+T> = Parsed(value: T, rest: seq<Token>) | Failed(error: Error)

  // ---- Printing.

  function Print(d: Doc): seq<Token>
    decreases d, 1
  {
    match d
    case DNull => [Null]
    case DBool(b) => [Bool(b)]
    case DNum(n) => [Num(Some(n))]
    case DStr(s) => [Str(s)]
    case DArray(items) => [OpenArray] + PrintItems(items) + [CloseArray]
    case DObject(members) => [OpenObject] + PrintMembers(members) + [CloseObject]
  }

  function PrintItems(items: seq<Doc>): seq<Token>
    decreases items, 0
  {
    if items == [] then [] else Print(items[0]) + PrintItems(items[1..])
  }

  function PrintMembers(members: seq<Member>): seq<Token>
    decreases members, 0
  {
    if members == [] then [] else [Str(members[0].name)] + Print(members[0].value) + PrintMembers(members[1..])
  }

  // ---- Which documents are accepted.

  /** Member names are pairwise distinct at every depth. */
  ghost predicate Distinct(d: Doc) {
    match d
    case DArray(items) => forall i :: 0 <= i < |items| ==> Distinct(items[i])
    case DObject(members) =>
      && (forall i, j :: 0 <= i < j < |members| ==> members[i].name != members[j].name)
      && (forall i :: 0 <= i < |members| ==> Distinct(members[i].value))
    case _ => true
  }

  /** Containers nest at most `n` deep. */
  ghost predicate NestsWithin(d: Doc, n: int) {
    match d
    case DArray(items) => n >= 1 && forall i :: 0 <= i < |items| ==> NestsWithin(items[i], n - 1)
    case DObject(members) => n >= 1 && forall i :: 0 <= i < |members| ==> NestsWithin(members[i].value, n - 1)
    case _ => true
  }

  // ---- The parser as a function of the remaining tokens.

  predicate More(ts: seq<Token>) {
    ts != [] && ts[0] != CloseObject && ts[0] != CloseArray && ts[0] != Malformed(true)
  }

  function ParseDoc(ts: seq<Token>, depth: nat): (o: Outcome<Doc>)
    ensures o.Parsed? ==> |o.rest| < |ts|
    decreases |ts|, 0
  {
    if ts == [] then Failed(EndOfInput)
    else match ts[0]
      case Null => Parsed(DNull, ts[1..])
      case Bool(b) => Parsed(DBool(b), ts[1..])
      case Str(s) => Parsed(DStr(s), ts[1..])
      case Num(n) => if n.Some? then Parsed(DNum(n.value), ts[1..]) else Failed(NotADouble)
      case OpenObject =>
        if depth >= MAX_DEPTH then Failed(TooDeep)
        else (
          match ParseMembers(ts[1..], {}, depth + 1)
          case Failed(error) => Failed(error)
          case Parsed(members, rest) => Parsed(DObject(members), rest))
      case OpenArray =>
        if depth >= MAX_DEPTH then Failed(TooDeep)
        else (
          match ParseItems(ts[1..], depth + 1)
          case Failed(error) => Failed(error)
          case Parsed(items, rest) => Parsed(DArray(items), rest))
      case Malformed(_) => Failed(NotJson)
      case CloseObject => Failed(if depth >= MAX_DEPTH then TooDeep else UnexpectedDelimiter)
      case CloseArray => Failed(if depth >= MAX_DEPTH then TooDeep else UnexpectedDelimiter)
  }

  function ParseItems(ts: seq<Token>, depth: nat): (o: Outcome<seq<Doc>>)
    ensures o.Parsed? ==> |o.rest| < |ts|
    decreases |ts|, 1
  {
    if More(ts) then
      match ParseDoc(ts, depth)
      case Failed(error) => Failed(error)
      case Parsed(item, rest) =>
        match ParseItems(rest, depth)
        case Failed(error) => Failed(error)
        case Parsed(items, rest') => Parsed([item] + items, rest')
    else if ts == [] then Failed(EndOfInput)
    else if ts[0].Malformed? then Failed(NotJson)
    else if ts[0] == CloseArray then Parsed([], ts[1..])
    else Failed(BadClosing)
  }

  function ParseMembers(ts: seq<Token>, seen: set<string>, depth: nat): (o: Outcome<seq<Member>>)
    ensures o.Parsed? ==> |o.rest| < |ts|
    decreases |ts|, 1
  {
    if More(ts) then
      if ts[0].Malformed? then Failed(NotJson)
      else if !ts[0].Str? then Failed(NameNotString)
      else if ts[0].s in seen then Failed(DuplicateMember(ts[0].s))
      else
        match ParseDoc(ts[1..], depth)
        case Failed(error) => Failed(error)
        case Parsed(value, rest) =>
          match ParseMembers(rest, seen + {ts[0].s}, depth)
          case Failed(error) => Failed(error)
          case Parsed(members, rest') => Parsed([Member(ts[0].s, value)] + members, rest')
    else if ts == [] then Failed(EndOfInput)
    else if ts[0].Malformed? then Failed(NotJson)
    else if ts[0] == CloseObject then Parsed([], ts[1..])
    else Failed(BadClosing)
  }

  /** Exactly one complete value. */
  function ParseStrict(ts: seq<Token>): Outcome<Doc> {
    match ParseDoc(ts, 0)
    case Failed(error) => Failed(error)
    case Parsed(d, rest) =>
      if rest == [] then Parsed(d, []) else Failed(if rest[0].Malformed? then NotJson else Trailing)
  }

  // ---- Acceptance.

  ghost predicate ItemsWithin(items: seq<Doc>, n: int) {
    forall i :: 0 <= i < |items| ==> Distinct(items[i]) && NestsWithin(items[i], n)
  }

  ghost predicate MembersWithin(members: seq<Member>, seen: set<string>, n: int) {
    && (forall i :: 0 <= i < |members| ==>
          members[i].name !in seen && Distinct(members[i].value) && NestsWithin(members[i].value, n))
    && (forall i, j :: 0 <= i < j < |members| ==> members[i].name != members[j].name)
  }

  lemma {:induction false} ParseDocIsSound(ts: seq<Token>, depth: nat)
    requires ParseDoc(ts, depth).Parsed?
    ensures var o := ParseDoc(ts, depth);
            ts == Print(o.value) + o.rest && Distinct(o.value) && NestsWithin(o.value, MAX_DEPTH - depth)
    decreases |ts|, 0
  {
    var o := ParseDoc(ts, depth);
    assert ts == [ts[0]] + ts[1..];
    if ts[0] == OpenObject {
      ParseMembersIsSound(ts[1..], {}, depth + 1);
      var tail := PrintMembers(o.value.members);
      Assoc([OpenObject], tail, [CloseObject] + o.rest);
      Assoc([OpenObject] + tail, [CloseObject], o.rest);
    } else if ts[0] == OpenArray {
      ParseItemsIsSound(ts[1..], depth + 1);
      var tail := PrintItems(o.value.items);
      Assoc([OpenArray], tail, [CloseArray] + o.rest);
      Assoc([OpenArray] + tail, [CloseArray], o.rest);
    }
  }

  lemma {:induction false} ParseItemsIsSound(ts: seq<Token>, depth: nat)
    requires ParseItems(ts, depth).Parsed?
    ensures var o := ParseItems(ts, depth);
            ts == PrintItems(o.value) + ([CloseArray] + o.rest) && ItemsWithin(o.value, MAX_DEPTH - depth)
    decreases |ts|, 1
  {
    var o := ParseItems(ts, depth);
    if More(ts) {
      var first := ParseDoc(ts, depth);
      ParseDocIsSound(ts, depth);
      ParseItemsIsSound(first.rest, depth);
      var items := ParseItems(first.rest, depth).value;
      ItemsCons(first.value, items);
      Assoc(Print(first.value), PrintItems(items), [CloseArray] + o.rest);
    } else {
      assert ts == [ts[0]] + ts[1..];
      NothingAdded([CloseArray] + o.rest);
    }
  }

  lemma {:induction false} ParseMembersIsSound(ts: seq<Token>, seen: set<string>, depth: nat)
    requires ParseMembers(ts, seen, depth).Parsed?
    ensures var o := ParseMembers(ts, seen, depth);
            ts == PrintMembers(o.value) + ([CloseObject] + o.rest) && MembersWithin(o.value, seen, MAX_DEPTH - depth)
    decreases |ts|, 1
  {
    var o := ParseMembers(ts, seen, depth);
    assert ts == [ts[0]] + ts[1..];
    if More(ts) {
      var name, first := ts[0].s, ParseDoc(ts[1..], depth);
      ParseDocIsSound(ts[1..], depth);
      ParseMembersIsSound(first.rest, seen + {name}, depth);
      var members := ParseMembers(first.rest, seen + {name}, depth).value;
      MembersCons(Member(name, first.value), members);
      Assoc([Str(name)], Print(first.value), first.rest);
      Assoc([Str(name)] + Print(first.value), PrintMembers(members), [CloseObject] + o.rest);
    } else {
      NothingAdded([CloseObject] + o.rest);
    }
  }

  lemma ItemsCons(item: Doc, items: seq<Doc>)
    ensures PrintItems([item] + items) == Print(item) + PrintItems(items)
  {
    assert ([item] + items)[1..] == items;
  }

  lemma MembersCons(member: Member, members: seq<Member>)
    ensures PrintMembers([member] + members) == [Str(member.name)] + Print(member.value) + PrintMembers(members)
  {
    assert ([member] + members)[1..] == members;
  }

  lemma PrintStart(d: Doc)
    ensures Print(d) != [] && More(Print(d))
  {
  }

  lemma {:induction false} ParsePrinted(d: Doc, rest: seq<Token>, depth: nat)
    requires Distinct(d) && NestsWithin(d, MAX_DEPTH - depth)
    ensures ParseDoc(Print(d) + rest, depth) == Parsed(d, rest)
    decreases d, 1
  {
    var ts := Print(d) + rest;
    match d
    case DArray(items) =>
      ParsePrintedItems(items, rest, depth + 1);
      Assoc([OpenArray] + PrintItems(items), [CloseArray], rest);
      Assoc([OpenArray], PrintItems(items), [CloseArray] + rest);
      assert ts[1..] == PrintItems(items) + ([CloseArray] + rest);
    case DObject(members) =>
      ParsePrintedMembers(members, {}, rest, depth + 1);
      Assoc([OpenObject] + PrintMembers(members), [CloseObject], rest);
      Assoc([OpenObject], PrintMembers(members), [CloseObject] + rest);
      assert ts[1..] == PrintMembers(members) + ([CloseObject] + rest);
    case _ =>
      assert ts[1..] == rest;
  }

  lemma {:induction false} ParsePrintedItems(items: seq<Doc>, rest: seq<Token>, depth: nat)
    requires ItemsWithin(items, MAX_DEPTH - depth)
    ensures ParseItems(PrintItems(items) + ([CloseArray] + rest), depth) == Parsed(items, rest)
    decreases items, 0
  {
    var tail := [CloseArray] + rest;
    var ts := PrintItems(items) + tail;
    if items == [] {
      assert ts == tail && tail[1..] == rest;
    } else {
      var after := PrintItems(items[1..]) + tail;
      Assoc(Print(items[0]), PrintItems(items[1..]), tail);
      PrintStart(items[0]);
      ParsePrinted(items[0], after, depth);
      ParsePrintedItems(items[1..], rest, depth);
      assert items == [items[0]] + items[1..];
    }
  }

  lemma {:induction false} ParsePrintedMembers(members: seq<Member>, seen: set<string>, rest: seq<Token>, depth: nat)
    requires MembersWithin(members, seen, MAX_DEPTH - depth)
    ensures ParseMembers(PrintMembers(members) + ([CloseObject] + rest), seen, depth) == Parsed(members, rest)
    decreases members, 0
  {
    var tail := [CloseObject] + rest;
    var ts := PrintMembers(members) + tail;
    if members == [] {
      assert ts == tail && tail[1..] == rest;
    } else {
      var m := members[0];
      var after := PrintMembers(members[1..]) + tail;
      Assoc([Str(m.name)] + Print(m.value), PrintMembers(members[1..]), tail);
      Assoc([Str(m.name)], Print(m.value), after);
      assert ts[1..] == Print(m.value) + after;
      ParsePrinted(m.value, after, depth);
      ParsePrintedMembers(members[1..], seen + {m.name}, rest, depth);
      assert members == [m] + members[1..];
    }
  }

  /** Exactly the printed documents with distinct names and bounded nesting are accepted, and each gives itself back. */
  lemma AcceptsExactlyStrictDocuments(ts: seq<Token>, d: Doc)
    ensures ParseStrict(ts) == Parsed(d, []) <==> ts == Print(d) && Distinct(d) && NestsWithin(d, MAX_DEPTH)
  {
    if ParseStrict(ts) == Parsed(d, []) {
      ParseDocIsSound(ts, 0);
      NothingAdded(Print(d));
    }
    if ts == Print(d) && Distinct(d) && NestsWithin(d, MAX_DEPTH) {
      ParsePrinted(d, [], 0);
      NothingAdded(Print(d));
    }
  }

  // ---- What a document means.

  function Meaning(d: Doc): Value
    decreases d, 1
  {
    match d
    case DNull => VNull
    case DBool(b) => VBool(b)
    case DNum(n) => VNum(n)
    case DStr(s) => VStr(s)
    case DArray(items) => VArray(Meanings(items))
    case DObject(members) => VObject(MembersMap(members))
  }

  function Meanings(items: seq<Doc>): (values: seq<Value>)
    ensures |values| == |items| && forall i :: 0 <= i < |items| ==> values[i] == Meaning(items[i])
    decreases items, 0
  {
    if items == [] then [] else Meanings(Init(items)) + [Meaning(Last(items))]
  }

  function MembersMap(members: seq<Member>): map<string, Value>
    decreases members, 0
  {
    if members == [] then map[] else MembersMap(Init(members))[Last(members).name := Meaning(Last(members).value)]
  }

  /** `v` is what the document says: the same scalars, the same items in order, for each name the value given to it. */
  ghost predicate Says(d: Doc, v: Value)
    decreases d
  {
    match d
    case DNull => v == VNull
    case DBool(b) => v == VBool(b)
    case DNum(n) => v == VNum(n)
    case DStr(s) => v == VStr(s)
    case DArray(items) =>
      v.VArray? && |v.items| == |items| && forall i :: 0 <= i < |items| ==> Says(items[i], v.items[i])
    case DObject(members) =>
      && v.VObject?
      && (forall name :: name in v.members <==> exists i :: 0 <= i < |members| && members[i].name == name)
      && (forall i :: 0 <= i < |members| ==>
            members[i].name in v.members && Says(members[i].value, v.members[members[i].name]))
  }

  lemma {:induction false} MembersMapSays(members: seq<Member>, i: nat)
    requires i < |members| && forall a, b :: 0 <= a < b < |members| ==> members[a].name != members[b].name
    ensures members[i].name in MembersMap(members)
    ensures MembersMap(members)[members[i].name] == Meaning(members[i].value)
  {
    if i < |members| - 1 {
      MembersMapSays(Init(members), i);
    }
  }

  lemma {:induction false} MembersMapNames(members: seq<Member>, name: string)
    ensures name in MembersMap(members) <==> exists i :: 0 <= i < |members| && members[i].name == name
  {
    if members != [] {
      MembersMapNames(Init(members), name);
      assert forall i :: 0 <= i < |members| - 1 ==> Init(members)[i] == members[i];
      assert Last(members) == members[|members| - 1];
    }
  }

  /** An accepted document means exactly the value that says the same. */
  lemma {:induction false} MeaningIffSays(d: Doc, v: Value)
    requires Distinct(d)
    ensures v == Meaning(d) <==> Says(d, v)
    decreases d
  {
    match d
    case DArray(items) =>
      if v.VArray? && |v.items| == |items| {
        forall i | 0 <= i < |items|
          ensures v.items[i] == Meaning(items[i]) <==> Says(items[i], v.items[i])
        {
          MeaningIffSays(items[i], v.items[i]);
        }
        assert Says(d, v) ==> v.items == Meanings(items);
      }
    case DObject(members) =>
      ObjectMeaningIffSays(members, v);
    case _ =>
  }

  lemma {:induction false} ObjectMeaningIffSays(members: seq<Member>, v: Value)
    requires Distinct(DObject(members))
    ensures v == Meaning(DObject(members)) <==> Says(DObject(members), v)
    decreases members
  {
    hide MembersMap;
    if v.VObject? {
      var all := MembersMap(members);
      forall name
        ensures name in all <==> exists i :: 0 <= i < |members| && members[i].name == name
      {
        MembersMapNames(members, name);
      }
      forall i | 0 <= i < |members|
        ensures members[i].name in all && all[members[i].name] == Meaning(members[i].value)
        ensures members[i].name in v.members ==>
                  (v.members[members[i].name] == all[members[i].name] <==>
                   Says(members[i].value, v.members[members[i].name]))
      {
        MembersMapSays(members, i);
        if members[i].name in v.members {
          MeaningIffSays(members[i].value, v.members[members[i].name]);
        }
      }
      if Says(DObject(members), v) {
        assert forall name :: name in v.members <==> name in all;
        forall name | name in all
          ensures v.members[name] == all[name]
        {
          var i :| 0 <= i < |members| && members[i].name == name;
        }
        assert v.members == all;
      }
    }
  }

  /** The decoder: a cursor over the tokens. */
  class Decoder {
    const tokens: seq<Token>
    var pos: nat

    constructor (tokens: seq<Token>)
      ensures this.tokens == tokens && pos == 0
    {
      this.tokens := tokens;
      pos := 0;
    }

    ghost predicate Valid()
      reads this
    {
      pos <= |tokens|
    }

    ghost function Rest(): seq<Token>
      reads this
      requires Valid()
    {
      tokens[pos..]
    }

    method HasMore() returns (more: bool)
      requires Valid()
      ensures more <==> More(Rest())
    {
      more := pos < |tokens| && tokens[pos] != CloseObject && tokens[pos] != CloseArray
      && tokens[pos] != Malformed(true);
    }

    method Next() returns (token: Option<Token>)
      requires Valid()
      modifies this
      ensures Valid()
      ensures old(Rest()) == [] ==> token.None? && Rest() == []
      ensures old(Rest()) != [] ==> token == Some(old(Rest())[0]) && Rest() == old(Rest())[1..]
    {
      if pos == |tokens| {
        return None;
      }
      token := Some(tokens[pos]);
      pos := pos + 1;
    }

    method ParseValue(depth: nat) returns (result: Result<Value>)
      requires Valid()
      modifies this
      ensures Valid()
      ensures match ParseDoc(old(Rest()), depth)
              case Failed(error) => result == Err(error)
              case Parsed(d, rest) => result == Ok(Meaning(d)) && Rest() == rest
      decreases |Rest()|, 0
    {
      ghost var ts := Rest();
      var token := Next();
      if token.None? {
        return Err(EndOfInput);
      }
      match token.value {
        case OpenObject =>
          if depth >= MAX_DEPTH {
            return Err(TooDeep);
          }
          result := ParseObject(depth + 1);
        case OpenArray =>
          if depth >= MAX_DEPTH {
            return Err(TooDeep);
          }
          result := ParseArray(depth + 1);
        case Malformed(_) => return Err(NotJson);
        case CloseObject => return Err(if depth >= MAX_DEPTH then TooDeep else UnexpectedDelimiter);
        case CloseArray => return Err(if depth >= MAX_DEPTH then TooDeep else UnexpectedDelimiter);
        case Null => return Ok(VNull);
        case Bool(b) => return Ok(VBool(b));
        case Str(s) => return Ok(VStr(s));
        case Num(n) =>
          if n.None? {
            return Err(NotADouble);
          }
          return Ok(VNum(n.value));
      }
    }

    method ParseObject(depth: nat) returns (result: Result<Value>)
      requires Valid()
      modifies this
      ensures Valid()
      ensures match ParseMembers(old(Rest()), {}, depth)
              case Failed(error) => result == Err(error)
              case Parsed(members, rest) => result == Ok(VObject(MembersMap(members))) && Rest() == rest
      decreases |Rest()|, 1
    {
      ghost var whole := ParseMembers(Rest(), {}, depth);
      var values: map<string, Value>, seen: set<string> := map[], {};
      ghost var members: seq<Member> := [];
      var more := HasMore();
      PrependNothing(ParseMembers(Rest(), seen, depth));
      while more
        invariant Valid() && |Rest()| <= |old(Rest())|
        invariant more <==> More(Rest())
        invariant whole == Prepend(members, ParseMembers(Rest(), seen, depth))
        invariant values == MembersMap(members)
        decreases |Rest()|
      {
        ghost var ts, before := Rest(), seen;
        var token := Next();
        if token.value.Malformed? {
          return Err(NotJson);
        }
        if !token.value.Str? {
          return Err(NameNotString);
        }
        var name := token.value.s;
        if name in seen {
          return Err(DuplicateMember(name));
        }
        seen := seen + {name};
        var value := ParseValue(depth);
        if value.Err? {
          return Err(value.error);
        }
        ghost var parsed := ParseDoc(ts[1..], depth);
        values := values[name := value.value];
        PrependSnoc(members, Member(name, parsed.value), ParseMembers(parsed.rest, seen, depth));
        members := members + [Member(name, parsed.value)];
        assert Init(members) + [Last(members)] == members;
        more := HasMore();
      }
      var closed := ConsumeClosing(CloseObject);
      if closed.Err? {
        return Err(closed.error);
      }
      NothingAdded(members);
      result := Ok(VObject(values));
    }

    method ParseArray(depth: nat) returns (result: Result<Value>)
      requires Valid()
      modifies this
      ensures Valid()
      ensures match ParseItems(old(Rest()), depth)
              case Failed(error) => result == Err(error)
              case Parsed(items, rest) => result == Ok(VArray(Meanings(items))) && Rest() == rest
      decreases |Rest()|, 1
    {
      ghost var whole := ParseItems(Rest(), depth);
      var values: seq<Value> := [];
      ghost var items: seq<Doc> := [];
      var more := HasMore();
      PrependNothing(ParseItems(Rest(), depth));
      while more
        invariant Valid() && |Rest()| <= |old(Rest())|
        invariant more <==> More(Rest())
        invariant whole == Prepend(items, ParseItems(Rest(), depth))
        invariant values == Meanings(items)
        decreases |Rest()|
      {
        ghost var parsed := ParseDoc(Rest(), depth);
        var value := ParseValue(depth);
        if value.Err? {
          return Err(value.error);
        }
        values := values + [value.value];
        PrependSnoc(items, parsed.value, ParseItems(parsed.rest, depth));
        items := items + [parsed.value];
        assert Init(items) + [Last(items)] == items;
        more := HasMore();
      }
      var closed := ConsumeClosing(CloseArray);
      if closed.Err? {
        return Err(closed.error);
      }
      NothingAdded(items);
      result := Ok(VArray(values));
    }

    method ConsumeClosing(want: Token) returns (result: Result<()>)
      requires Valid() && !want.Malformed?
      modifies this
      ensures Valid()
      ensures old(Rest()) == [] ==> result == Err(EndOfInput)
      ensures old(Rest()) != [] ==>
                && Rest() == old(Rest())[1..]
                && result == (if old(Rest())[0].Malformed? then Err(NotJson)
                              else if old(Rest())[0] == want then Ok(()) else Err(BadClosing))
    {
      var token := Next();
      if token.None? {
        return Err(EndOfInput);
      }
      if token.value.Malformed? {
        return Err(NotJson);
      }
      if token.value != want {
        return Err(BadClosing);
      }
      result := Ok(());
    }
  }

  datatype Result<+T> = Ok(value: T) | Err(error: Error)

  function Prepend<T>(first: seq<T>, o: Outcome<seq<T>>): Outcome<seq<T>> {
    match o
    case Failed(error) => Failed(error)
    case Parsed(more, rest) => Parsed(first + more, rest)
  }

  lemma PrependNothing<T>(o: Outcome<seq<T>>)
    ensures Prepend([], o) == o
  {
    if o.Parsed? {
      NothingAdded(o.value);
    }
  }

  lemma PrependSnoc<T>(first: seq<T>, x: T, o: Outcome<seq<T>>)
    ensures Prepend(first, Prepend([x], o)) == Prepend(first + [x], o)
  {
    if o.Parsed? {
      Assoc(first, [x], o.value);
    }
  }

  /** The part of `parseStrict` after its checks of the text: exactly one value; for accepted input it is the meaning
      of the one document printed there. */
  method ParseTokens(tokens: seq<Token>) returns (result: Result<Value>)
    ensures match ParseStrict(tokens)
            case Failed(error) => result == Err(error)
            case Parsed(d, _) => result == Ok(Meaning(d))
  {
    var decoder := new Decoder(tokens);
    assert tokens[0..] == tokens;
    var value := decoder.ParseValue(0);
    if value.Err? {
      return value;
    }
    var trailing := decoder.Next();
    if trailing.None? {
      return value;
    }
    result := Err(if trailing.value.Malformed? then NotJson else Trailing);
  }
}
