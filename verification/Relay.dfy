/** The streaming stderr relay: redact, decode and collect one byte at a time. */
module Relay {
  import opened Text
  import opened Utf8
  import opened Redaction
  import opened Collection

  /** The relay said in one go: rewrite the whole stream, decode it, collect it. */
  function Batch(secrets: seq<bytes>, input: bytes): Collector {
    CollectAll(EMPTY, DecodeAll(Redact(secrets, input)))
  }

  /** What a relay holding collector `c`, undecided UTF-8 `u` and undecided raw bytes `p` still makes of `p`. */
  function Tail(secrets: seq<bytes>, c: Collector, u: bytes, p: bytes): Collector {
    CollectAll(c, DecodeAll(u + Redact(secrets, p)))
  }

  /** The streaming state stands for the input so far: whatever comes next, both forms agree. */
  ghost predicate Represents(secrets: seq<bytes>, input: bytes, c: Collector, u: bytes, p: bytes) {
    forall rest: bytes :: Batch(secrets, input + rest) == Tail(secrets, c, u, p + rest)
  }

  /** Feeding `s` to the decoder and collector took `(c0, u0)` to `(c, u)`, for every continuation. */
  ghost predicate Absorbed(c0: Collector, u0: bytes, s: bytes, c: Collector, u: bytes) {
    forall more: bytes :: CollectAll(c0, DecodeAll(u0 + s + more)) == CollectAll(c, DecodeAll(u + more))
  }

  lemma FreshRepresents(secrets: seq<bytes>)
    ensures Represents(secrets, [], EMPTY, [], [])
  {
    forall rest: bytes
      ensures Batch(secrets, [] + rest) == Tail(secrets, EMPTY, [], [] + rest)
    {
      hide CollectAll, DecodeAll, Redaction.Redact;
      NothingAdded(rest);
      NothingAdded(Redact(secrets, rest));
    }
  }

  lemma RepresentsByte(secrets: seq<bytes>, input: bytes, c: Collector, u: bytes, p: bytes, b: byte)
    requires Represents(secrets, input, c, u, p)
    ensures Represents(secrets, input + [b], c, u, p + [b])
  {
    forall rest: bytes
      ensures Batch(secrets, input + [b] + rest) == Tail(secrets, c, u, p + [b] + rest)
    {
      hide Batch, Tail;
      assert Batch(secrets, input + ([b] + rest)) == Tail(secrets, c, u, p + ([b] + rest));
      Assoc(input, [b], rest);
      Assoc(p, [b], rest);
    }
  }

  lemma RepresentsNow(secrets: seq<bytes>, input: bytes, c: Collector, u: bytes, p: bytes)
    requires Represents(secrets, input, c, u, p)
    ensures Batch(secrets, input) == Tail(secrets, c, u, p)
  {
    hide Batch, Tail;
    assert Batch(secrets, input + []) == Tail(secrets, c, u, p + []);
    NothingAdded(input);
    NothingAdded(p);
  }

  /** After truncation the rest of the stream no longer matters. */
  lemma RepresentsIgnored(secrets: seq<bytes>, input: bytes, c: Collector, u: bytes, p: bytes, ignored: bytes)
    requires Represents(secrets, input, c, u, p) && c.truncated
    ensures Represents(secrets, input + ignored, c, u, p)
  {
    forall rest: bytes
      ensures Batch(secrets, input + ignored + rest) == Tail(secrets, c, u, p + rest)
    {
      hide Batch, Redaction.Redact, DecodeAll;
      assert Batch(secrets, input + (ignored + rest)) == Tail(secrets, c, u, p + (ignored + rest));
      Assoc(input, ignored, rest);
      TruncatedAbsorbs(c, DecodeAll(u + Redact(secrets, p + (ignored + rest))));
      TruncatedAbsorbs(c, DecodeAll(u + Redact(secrets, p + rest)));
    }
  }

  lemma AbsorbedNothing(c: Collector, u: bytes)
    ensures Absorbed(c, u, [], c, u)
  {
    forall more: bytes
      ensures u + [] + more == u + more
    {
      assert u + [] == u;
    }
  }

  lemma AbsorbedThen(c0: Collector, u0: bytes, s: bytes, c1: Collector, u1: bytes, t: bytes, c2: Collector, u2: bytes)
    requires Absorbed(c0, u0, s, c1, u1) && Absorbed(c1, u1, t, c2, u2)
    ensures Absorbed(c0, u0, s + t, c2, u2)
  {
    forall more: bytes
      ensures CollectAll(c0, DecodeAll(u0 + (s + t) + more)) == CollectAll(c2, DecodeAll(u2 + more))
    {
      AbsorbedThenMore(c0, u0, s, c1, u1, t, c2, u2, more);
    }
  }

  lemma AbsorbedThenMore(c0: Collector, u0: bytes, s: bytes, c1: Collector, u1: bytes, t: bytes,
                         c2: Collector, u2: bytes, more: bytes)
    requires Absorbed(c0, u0, s, c1, u1) && Absorbed(c1, u1, t, c2, u2)
    ensures CollectAll(c0, DecodeAll(u0 + (s + t) + more)) == CollectAll(c2, DecodeAll(u2 + more))
  {
    hide CollectAll, DecodeAll;
    assert CollectAll(c0, DecodeAll(u0 + s + (t + more))) == CollectAll(c1, DecodeAll(u1 + (t + more)));
    assert u0 + s + (t + more) == u0 + (s + t) + more by {
      Assoc(u0 + s, t, more);
      Assoc(u0, s, t);
    }
    assert u1 + (t + more) == u1 + t + more by { Assoc(u1, t, more); }
  }

  /** Taking one rune off the undecided bytes is a step of the whole decoding. */
  lemma DecodeStep(c: Collector, u: bytes, more: bytes)
    requires u != [] && (FullRune(u) || more == [])
    ensures var d := DecodeRune(u);
            CollectAll(c, DecodeAll(u + more)) == CollectAll(Collect(c, d.value), DecodeAll(u[d.size..] + more))
  {
    var d := DecodeRune(u);
    if more == [] {
      assert u + more == u && u[d.size..] + more == u[d.size..];
    } else {
      FullRuneIsStable(u, more);
      DropPrefix(u, more, d.size);
    }
    CollectCons(c, d.value, DecodeAll(u[d.size..] + more));
  }

  lemma CollectCons(c: Collector, r: rune, rs: seq<rune>)
    ensures CollectAll(c, [r] + rs) == CollectAll(Collect(c, r), rs)
  {
    assert ([r] + rs)[1..] == rs;
  }

  lemma AbsorbedStep(c0: Collector, u0: bytes, s: bytes, c: Collector, u: bytes)
    requires Absorbed(c0, u0, s, c, u) && FullRune(u)
    ensures var d := DecodeRune(u); Absorbed(c0, u0, s, Collect(c, d.value), u[d.size..])
  {
    forall more: bytes {
      DecodeStep(c, u, more);
    }
  }

  /** One committed replacement step followed by its decoding keeps the representation. */
  lemma RepresentsStep(secrets: seq<bytes>, input: bytes, c: Collector, u: bytes, p: bytes,
                       shown: bytes, k: nat, c': Collector, u': bytes)
    requires p != [] && k <= |p|
    requires var n := Longest(secrets, p);
             if n > 0 then shown == MARK && k == n else shown == [p[0]] && k == 1
    requires Absorbed(c, u, shown, c', u')
    ensures !Partial(secrets, p) && Represents(secrets, input, c, u, p) ==> Represents(secrets, input, c', u', p[k..])
    ensures Tail(secrets, c, u, p) == Tail(secrets, c', u', p[k..])
  {
    TailStep(secrets, c, u, p, shown, k, c', u', []);
    assert p + [] == p && p[k..] + [] == p[k..];
    if !Partial(secrets, p) && Represents(secrets, input, c, u, p) {
      forall rest: bytes
        ensures Batch(secrets, input + rest) == Tail(secrets, c', u', p[k..] + rest)
      {
        TailStep(secrets, c, u, p, shown, k, c', u', rest);
      }
    }
  }

  lemma TailStep(secrets: seq<bytes>, c: Collector, u: bytes, p: bytes,
                 shown: bytes, k: nat, c': Collector, u': bytes, rest: bytes)
    requires p != [] && k <= |p|
    requires !Partial(secrets, p) || rest == []
    requires var n := Longest(secrets, p);
             if n > 0 then shown == MARK && k == n else shown == [p[0]] && k == 1
    requires Absorbed(c, u, shown, c', u')
    ensures Tail(secrets, c, u, p + rest) == Tail(secrets, c', u', p[k..] + rest)
  {
    hide CollectAll, DecodeAll, Redaction.Redact, Longest;
    RedactStep(secrets, p, rest);
    Assoc(u, shown, Redact(secrets, p[k..] + rest));
  }

  /** Empty secrets and secrets holding a line break are not looked for. */
  function Usable(values: seq<bytes>): seq<bytes> {
    if values == [] then []
    else
      var value := Last(values);
      Usable(Init(values)) + if value != [] && 13 !in value && 10 !in value then [value] else []
  }

  /** `chosen` is what stands at the positions `at` of `values`, in order: exactly the values that are not empty and
      hold no line break. */
  ghost predicate Selects(values: seq<bytes>, at: seq<nat>, chosen: seq<bytes>) {
    && |at| == |chosen|
    && (forall i :: 0 <= i < |at| ==> at[i] < |values| && chosen[i] == values[at[i]])
    && (forall i, j :: 0 <= i < j < |at| ==> at[i] < at[j])
    && (forall k :: 0 <= k < |values| ==> (k in at <==> values[k] != [] && 13 !in values[k] && 10 !in values[k]))
  }

  lemma {:induction false} UsableSelects(values: seq<bytes>) returns (at: seq<nat>)
    ensures Selects(values, at, Usable(values))
    ensures forall v: bytes :: v in Usable(values) <==> v in values && v != [] && 13 !in v && 10 !in v
  {
    at := [];
    if values != [] {
      hide Selects;
      var front, last := Init(values), Last(values);
      InitLast(values);
      at := UsableSelects(front);
      assert forall v :: v in values <==> v in front || v == last;
      if last != [] && 13 !in last && 10 !in last {
        SelectsNext(front, last, at, Usable(front));
        at := at + [|front|];
        assert forall v :: v in Usable(front) + [last] <==> v in Usable(front) || v == last;
      } else {
        SelectsSkip(front, last, at, Usable(front));
        NothingAdded(Usable(front));
      }
    }
  }

  lemma SelectsNext(front: seq<bytes>, last: bytes, at: seq<nat>, chosen: seq<bytes>)
    requires Selects(front, at, chosen) && last != [] && 13 !in last && 10 !in last
    ensures Selects(front + [last], at + [|front|], chosen + [last])
  {
    var all := front + [last];
    assert forall k :: 0 <= k < |front| ==> all[k] == front[k];
    assert forall k :: k in at + [|front|] <==> k in at || k == |front|;
    assert forall i :: 0 <= i < |at| ==> at[i] < |front|;
  }

  lemma SelectsSkip(front: seq<bytes>, last: bytes, at: seq<nat>, chosen: seq<bytes>)
    requires Selects(front, at, chosen) && !(last != [] && 13 !in last && 10 !in last)
    ensures Selects(front + [last], at, chosen)
  {
    var all := front + [last];
    assert forall k :: 0 <= k < |front| ==> all[k] == front[k];
    assert forall k :: k in at ==> k < |front|;
  }

  /** Wherever a usable value occurs in the stream, its first byte is hidden. */
  lemma UsableValueStartIsHidden(values: seq<bytes>, input: bytes, at: nat, v: bytes)
    requires v in values && v != [] && 13 !in v && 10 !in v
    requires at <= |input| && HasPrefix(input[at..], v)
    ensures Covered(Scan(Usable(values), input), at)
  {
    var positions := UsableSelects(values);
    SecretStartIsHidden(Usable(values), input, at, v);
  }

  // ---- What is logged.

  function Entry(operation: bytes, line: bytes): bytes {
    Ascii("operation=") + operation + Ascii(" stderr: ") + line
  }

  function Notice(operation: bytes): bytes {
    Ascii("operation=") + operation + Ascii(" stderr_truncated=true")
  }

  function Entries(operation: bytes, lines: seq<bytes>): seq<bytes> {
    seq(|lines|, k requires 0 <= k < |lines| => Entry(operation, lines[k]))
  }

  /** The relayed lines of a collector. */
  function LinesOf(c: Collector): seq<bytes> {
    NonEmpty(Split(EncodeAll(c.text), 10))
  }

  /** The log of a collector: its non-empty lines, then the notice when something was cut off. */
  function Log(operation: bytes, c: Collector): seq<bytes> {
    Entries(operation, LinesOf(c)) + if c.truncated then [Notice(operation)] else []
  }

  /** A log has at most one entry for each line, and the notice. */
  lemma LogIsShort(operation: bytes, c: Collector)
    requires Sound(c)
    ensures |Log(operation, c)| <= MAX_LINES + 1
  {
    hide Split, EncodeAll, NonEmpty, Clean, TextSize, Entry, Notice;
    EncodedLines(c.text);
    EncodedNonEmpty(Split(c.text, NL), Split(EncodeAll(c.text), 10));
  }

  lemma EntriesSnoc(operation: bytes, lines: seq<bytes>, line: bytes)
    ensures Entries(operation, lines + [line]) == Entries(operation, lines) + [Entry(operation, line)]
  {
  }

  // ---- What the batch form, and so the relay, guarantees.

  /** The relayed text is the longest beginning of the sifted stream's non-empty lines within the budgets. */
  lemma RelayedTextIsLongestFitting(secrets: seq<bytes>, input: bytes)
    ensures var stream := DecodeAll(Redact(secrets, input));
            && LongestFitting(Batch(secrets, input), GatherAll([], stream))
            && NonEmpty(Split(GatherAll([], stream), NL)) == NonEmpty(Split(Sift([], stream), NL))
  {
    CollectIsLongestFitting(DecodeAll(Redact(secrets, input)));
    GatheredLines(DecodeAll(Redact(secrets, input)));
  }

  /** Clean text without secrets and within the budgets is relayed as it is. */
  lemma CleanTextIsRelayedVerbatim(secrets: seq<bytes>, rs: seq<rune>)
    requires Clean(rs) && Fits(rs)
    requires forall at, secret :: 0 <= at <= |EncodeAll(rs)| && secret in secrets && secret != [] ==>
                                    !HasPrefix(EncodeAll(rs)[at..], secret)
    ensures Batch(secrets, EncodeAll(rs)).text == rs && !Batch(secrets, EncodeAll(rs)).truncated
  {
    hide Clean, Fits, EncodeAll, Redaction.Redact;
    RedactLeavesOthers(secrets, EncodeAll(rs));
    DecodeEncoded(rs);
    NothingAdded(rs);
    GatherKeepsClean([], rs);
    CollectIsLongestFitting(rs);
    var c := CollectAll(EMPTY, rs);
    if c.truncated {
      FitsIsPrefixClosed(rs, |c.text| + 1);
    }
  }

  /** Printable ASCII other than `#`. */
  predicate Plain(p: bytes) {
    forall i :: 0 <= i < |p| ==> 32 <= p[i] < 127 && p[i] != 35
  }

  function Runes(p: bytes): (t: seq<rune>)
    ensures |t| == |p|
  {
    seq(|p|, i requires 0 <= i < |p| => p[i] as rune)
  }

  lemma {:induction false} PlainRunes(p: bytes)
    requires Plain(p)
    ensures EncodeAll(Runes(p)) == p && TextSize(Runes(p)) <= |p|
  {
    if p != [] {
      InitLast(p);
      PlainRunes(Init(p));
      assert Runes(p) == Runes(Init(p)) + [Last(p) as rune];
      assert Encode(Last(p) as rune) == [Last(p)];
      TextSizeSnoc(Runes(Init(p)), Last(p) as rune);
      EncodeAllSnoc(Runes(Init(p)), Last(p) as rune);
    }
  }

  lemma PlainRunesAreClean(p: bytes)
    requires Plain(p)
    ensures Clean(Runes(p))
  {
    var t := Runes(p);
    forall i | 0 <= i < |t|
      ensures CleanAt(t, i)
    {
      assert t[i] == p[i] as rune;
      if i >= 2 {
        assert t[..i][i - 2..][0] == t[i - 2] == p[i - 2] as rune;
      }
    }
  }

  /** One line of plain text fits and is relayed as it is. */
  lemma PlainLineIsRelayedVerbatim(p: bytes)
    requires Plain(p) && |p| <= MAX_BYTES
    ensures var c := CollectAll(EMPTY, DecodeAll(p)); c.text == Runes(p) && !c.truncated
  {
    hide CollectAll, DecodeAll, EncodeAll, Redaction.Redact, Clean, Fits, Plain;
    PlainRunes(p);
    PlainRunesAreClean(p);
    PlainLineFits(p);
    NoSecretsNothingHidden(p);
    CleanTextIsRelayedVerbatim([], Runes(p));
  }

  lemma PlainLineFits(p: bytes)
    requires Plain(p) && |p| <= MAX_BYTES
    ensures Fits(Runes(p))
  {
    hide TextSize, EncodeAll;
    var t := Runes(p);
    PlainRunes(p);
    SplitWithoutSeparator(t, NL);
    NonEmptyInit(Split(t, NL));
  }

  lemma NoSecretsNothingHidden(p: bytes)
    ensures Redact([], p) == p
  {
    RedactLeavesOthers([], p);
  }

  lemma MarkIsPlain()
    ensures Plain(MARK) && |MARK| == 10
  {
  }

  lemma PlainLineStands(p: bytes)
    requires Plain(p) && 0 < |p| <= MAX_BYTES
    ensures LinesOf(CollectAll(EMPTY, DecodeAll(p))) == [p]
  {
    hide CollectAll, DecodeAll, EncodeAll;
    PlainLineIsRelayedVerbatim(p);
    PlainRunes(p);
    assert (10 as byte) !in p;
    SplitWithoutSeparator(p, 10);
    OneLine(p);
  }

  lemma PlainLineLog(operation: bytes, p: bytes)
    requires Plain(p) && 0 < |p| <= MAX_BYTES
    ensures Log(operation, CollectAll(EMPTY, DecodeAll(p))) == [Entry(operation, p)]
  {
    hide CollectAll, DecodeAll, EncodeAll, Entry;
    PlainLineStands(p);
    PlainLineIsRelayedVerbatim(p);
    EntriesSnoc(operation, [], p);
  }

  lemma OneLine(p: bytes)
    requires p != []
    ensures NonEmpty([p]) == [p] && [] + [p] == [p]
  {
    NonEmptyInit([p]);
  }

  /** A lone secret is logged as exactly the marker, whatever its bytes are. */
  lemma LoneSecretIsLoggedAsMarker(operation: bytes, secrets: seq<bytes>, secret: bytes)
    requires secret in secrets && secret != []
    ensures Log(operation, Batch(secrets, secret)) == [Entry(operation, MARK)]
  {
    hide Log, CollectAll, DecodeAll, Redaction.Redact;
    LoneSecretIsHidden(secrets, secret);
    MarkIsPlain();
    PlainLineLog(operation, MARK);
  }

  /** The loop of `emit`: one entry for each non-empty line. */
  method LogLines(operation: bytes, pieces: seq<bytes>) returns (log: seq<bytes>)
    ensures log == Entries(operation, NonEmpty(pieces))
  {
    hide NonEmpty, Entry;
    log := [];
    NonEmptyNothing(pieces);
    for i := 0 to |pieces|
      invariant log == Entries(operation, NonEmpty(pieces[..i]))
    {
      NonEmptySnoc(pieces[..i], pieces[i]);
      TakeNext(pieces, i);
      if pieces[i] != [] {
        EntriesSnoc(operation, NonEmpty(pieces[..i]), pieces[i]);
        log := log + [Entry(operation, pieces[i])];
      } else {
        NothingAdded(NonEmpty(pieces[..i]));
      }
    }
    assert pieces[..|pieces|] == pieces;
  }

  class StderrRelay {
    var secrets: seq<bytes>
    var pending: bytes
    var utf8Pending: bytes
    var payload: bytes
    var size: nat
    var lines: nat
    var inLine: bool
    var truncated: bool
    /** Every byte offered to `Write`. */
    ghost var input: bytes
    /** The runes whose encoding is `payload`. */
    ghost var text: seq<rune>

    ghost function State(): Collector
      reads this
    {
      Collector(text, size, lines, inLine, truncated)
    }

    ghost predicate Consistent()
      reads this
    {
      payload == EncodeAll(text) && Sound(State())
    }

    ghost predicate Valid()
      reads this
    {
      && Consistent()
      && Represents(secrets, input, State(), utf8Pending, pending)
      && !FullRune(utf8Pending)
      && (truncated || pending == [] || Partial(secrets, pending))
    }

    /** What a relay retains between writes is bounded by the longest secret and the budgets. */
    lemma RetainedStateIsBounded()
      requires Valid()
      ensures !truncated && pending != [] ==>
                exists secret :: secret in secrets && |pending| < |secret| && HasPrefix(secret, pending)
      ensures |utf8Pending| <= 3
      ensures |payload| <= MAX_BYTES + MAX_LINES
      ensures size == TextSize(text) <= MAX_BYTES && lines == LineCount(text) <= MAX_LINES
      ensures Clean(text)
    {
      UndecidedIsShort(utf8Pending);
      EncodedSize(text);
    }

    constructor (values: seq<bytes>)
      ensures Valid() && input == []
      ensures secrets == Usable(values)
      ensures exists at :: Selects(values, at, secrets)
      ensures forall v: bytes :: v in secrets <==> v in values && v != [] && 13 !in v && 10 !in v
    {
      secrets, pending, utf8Pending, payload := [], [], [], [];
      size, lines, inLine, truncated := 0, 0, false, false;
      input, text := [], [];
      new;
      for i := 0 to |values|
        invariant pending == [] && utf8Pending == [] && payload == [] && input == [] && State() == EMPTY
        invariant secrets == Usable(values[..i])
      {
        assert Init(values[..i + 1]) == values[..i];
        if values[i] != [] && 13 !in values[i] && 10 !in values[i] {
          secrets := secrets + [values[i]];
        }
      }
      assert values[..|values|] == values;
      EmptyIsSound();
      FreshRepresents(secrets);
      ghost var at := UsableSelects(values);
    }

    method Write(p: bytes)
      requires Valid()
      modifies this
      ensures Valid() && input == old(input) + p && secrets == old(secrets)
    {
      hide Represents, Sound, FullRune, Partial, EncodeAll, Batch, Tail;
      NothingAdded(old(input));
      for i := 0 to |p|
        invariant Valid() && input == old(input) + p[..i] && secrets == old(secrets)
      {
        if truncated {
          RepresentsIgnored(secrets, input, State(), utf8Pending, pending, p[i..]);
          Assoc(old(input), p[..i], p[i..]);
          TakeNext(p, i);
          input := input + p[i..];
          return;
        }
        RepresentsByte(secrets, input, State(), utf8Pending, pending, p[i]);
        Assoc(old(input), p[..i], [p[i]]);
        TakeNext(p, i);
        pending := pending + [p[i]];
        input := input + [p[i]];
        Redact(false);
      }
      assert p[..|p|] == p;
    }

    /** Commits as much of `pending` as no longer bytes could change; all of it at the end. */
    method Redact(final: bool)
      requires Consistent() && !FullRune(utf8Pending)
      requires Represents(secrets, input, State(), utf8Pending, pending)
      modifies this`pending, this`utf8Pending, this`payload, this`size, this`lines, this`inLine, this`truncated
      modifies this`text
      ensures Consistent() && !FullRune(utf8Pending)
      ensures !final ==> Represents(secrets, input, State(), utf8Pending, pending)
      ensures Batch(secrets, input) == Tail(secrets, State(), utf8Pending, pending)
      ensures truncated || pending == [] || (!final && Partial(secrets, pending))
    {
      hide Represents, Absorbed, Sound, FullRune, Partial, EncodeAll, Batch, Tail, Longest;
      RepresentsNow(secrets, input, State(), utf8Pending, pending);
      while pending != [] && !truncated
        invariant Consistent() && !FullRune(utf8Pending)
        invariant !final ==> Represents(secrets, input, State(), utf8Pending, pending)
        invariant Batch(secrets, input) == Tail(secrets, State(), utf8Pending, pending)
        decreases |pending|
      {
        var matched, partial := Match();
        if partial && !final {
          return;
        }
        ghost var c, u, p := State(), utf8Pending, pending;
        if matched > 0 {
          AbsorbedNothing(c, u);
          assert MARK[..0] == [];
          for i := 0 to |MARK|
            invariant Consistent() && !FullRune(utf8Pending) && pending == p
            invariant Absorbed(c, u, MARK[..i], State(), utf8Pending)
          {
            ghost var c1, u1 := State(), utf8Pending;
            Decode(MARK[i], false);
            AbsorbedThen(c, u, MARK[..i], c1, u1, [MARK[i]], State(), utf8Pending);
            TakeNext(MARK, i);
          }
          assert MARK[..|MARK|] == MARK;
          RepresentsStep(secrets, input, c, u, p, MARK, matched, State(), utf8Pending);
          pending := pending[matched..];
        } else {
          Decode(pending[0], false);
          RepresentsStep(secrets, input, c, u, p, [p[0]], 1, State(), utf8Pending);
          pending := pending[1..];
        }
      }
    }

    /** The longest secret at the start of `pending`, and whether `pending` may still grow into one. */
    method Match() returns (matched: nat, partial: bool)
      requires pending != []
      ensures matched == Longest(secrets, pending) <= |pending|
      ensures partial <==> Partial(secrets, pending)
    {
      matched, partial := 0, false;
      for k := 0 to |secrets|
        invariant matched == Longest(secrets[..k], pending)
        invariant partial <==> Partial(secrets[..k], pending)
      {
        var secret := secrets[k];
        LongestIsLongest(secrets[..k], pending);
        assert secrets[..k + 1] == secrets[..k] + [secret];
        assert Init(secrets[..k + 1]) == secrets[..k];
        if |pending| < |secret| {
          partial := partial || HasPrefix(secret, pending);
        } else if HasPrefix(pending, secret) {
          matched := if matched < |secret| then |secret| else matched;
        }
      }
      assert secrets[..|secrets|] == secrets;
      LongestIsLongest(secrets, pending);
    }

    /** Appends one byte, then hands every decided rune to the collector; at the end hands over all of them. */
    method Decode(b: byte, final: bool)
      requires Consistent()
      modifies this`utf8Pending, this`payload, this`size, this`lines, this`inLine, this`truncated, this`text
      ensures Consistent()
      ensures !final ==> !FullRune(utf8Pending) && Absorbed(old(State()), old(utf8Pending), [b], State(), utf8Pending)
      ensures final ==> utf8Pending == [] && State() == CollectAll(old(State()), DecodeAll(old(utf8Pending)))
    {
      ghost var c0, u0 := State(), utf8Pending;
      if !final {
        utf8Pending := utf8Pending + [b];
      }
      while utf8Pending != [] && (final || FullRune(utf8Pending))
        invariant Consistent()
        invariant !final ==> Absorbed(c0, u0, [b], State(), utf8Pending)
        invariant final ==> CollectAll(c0, DecodeAll(u0)) == CollectAll(State(), DecodeAll(utf8Pending))
        decreases |utf8Pending|
      {
        var decoded := DecodeRune(utf8Pending);
        if final {
          DecodeStep(State(), utf8Pending, []);
          assert utf8Pending + [] == utf8Pending;
          assert utf8Pending[decoded.size..] + [] == utf8Pending[decoded.size..];
        } else {
          AbsorbedStep(c0, u0, [b], State(), utf8Pending);
        }
        utf8Pending := utf8Pending[decoded.size..];
        CollectRune(decoded.value);
      }
    }

    method CollectRune(value: rune)
      requires Consistent()
      modifies this`payload, this`size, this`lines, this`inLine, this`truncated, this`text
      ensures Consistent() && State() == Collect(old(State()), value)
    {
      hide Sound, EncodeAll;
      CollectKeepsSound(State(), value);
      EncodeAllSnoc(text, value);
      EncodedAsciiSuffix(text, 35);
      if truncated || Stripped(value) {
        return;
      }
      if value == BRACKET && HasSuffix(payload, [35, 35]) {
        return;
      }
      if value == NL {
        if inLine {
          payload := payload + Encode(NL);
          text := text + [NL];
          inLine := false;
        }
        return;
      }
      if size + RuneLen(value) > MAX_BYTES || (!inLine && lines == MAX_LINES) {
        truncated := true;
        return;
      }
      if !inLine {
        lines := lines + 1;
        inLine := true;
      }
      payload := payload + Encode(value);
      text := text + [value];
      size := size + RuneLen(value);
    }

    /** Flushes the undecided bytes of every stage. */
    method Flush()
      requires Valid()
      modifies this`pending, this`utf8Pending, this`payload, this`size, this`lines, this`inLine, this`truncated
      modifies this`text
      ensures Consistent() && State() == Batch(secrets, input)
    {
      hide Represents, Absorbed, Sound, FullRune, Partial, EncodeAll, Batch;
      Redact(true);
      ghost var c, u := State(), utf8Pending;
      Decode(0, true);
      if c.truncated {
        TruncatedAbsorbs(c, DecodeAll(u));
        TruncatedAbsorbs(c, DecodeAll(u + Redaction.Redact(secrets, pending)));
      } else {
        NothingAdded(u);
      }
    }

    /** Flushes every stage and returns what is logged: one entry per line, then the truncation notice. */
    method Emit(operation: bytes) returns (log: seq<bytes>)
      requires Valid()
      modifies this`pending, this`utf8Pending, this`payload, this`size, this`lines, this`inLine, this`truncated
      modifies this`text
      ensures payload == EncodeAll(text) && State() == Batch(secrets, input)
      ensures log == Log(operation, Batch(secrets, input))
      ensures |log| <= MAX_LINES + 1
    {
      Flush();
      hide Batch, EncodeAll, Split, NonEmpty, Entry, Notice, Sound;
      LogIsShort(operation, State());
      log := LogLines(operation, Split(payload, 10));
      if truncated {
        log := log + [Notice(operation)];
      } else {
        NothingAdded(log);
      }
    }
  }

  // ---- A whole relay, from its values and writes to its log.

  /** Something is cut off exactly when the lines do not fit 65536 bytes and 512 lines. */
  lemma TruncatedIffTooLong(rs: seq<rune>)
    ensures var text := GatherAll([], rs);
            CollectAll(EMPTY, rs).truncated <==> TextSize(text) > 65536 || LineCount(text) > 512
  {
    hide CollectAll, GatherAll, Clean, TextSize, LineCount;
    CollectIsLongestFitting(rs);
    var c, text := CollectAll(EMPTY, rs), GatherAll([], rs);
    if c.truncated && Fits(text) {
      FitsIsPrefixClosed(text, |c.text| + 1);
    }
  }

  lemma NoticeIsNoEntry(operation: bytes, line: bytes)
    ensures Entry(operation, line) != Notice(operation)
  {
    var start := Ascii("operation=") + operation;
    var n := |start|;
    Assoc(start, Ascii(" stderr: "), line);
    assert Ascii(" stderr: ")[7] == 58 && Ascii(" stderr_truncated=true")[7] == 95;
    assert Entry(operation, line)[n + 7] == 58 && Notice(operation)[n + 7] == 95;
  }

  lemma NoticeIffTruncated(operation: bytes, c: Collector)
    ensures Notice(operation) in Log(operation, c) <==> c.truncated
  {
    hide LinesOf, Entry, Notice;
    var entries := Entries(operation, LinesOf(c));
    forall i | 0 <= i < |entries|
      ensures entries[i] != Notice(operation)
    {
      NoticeIsNoEntry(operation, LinesOf(c)[i]);
    }
  }

  lemma MarkEntry(operation: bytes)
    ensures Entry(operation, MARK) == Ascii("operation=") + operation + Ascii(" stderr: [REDACTED]")
  {
    hide Ascii;
    AsciiAppend(" stderr: ", "[REDACTED]");
    assert " stderr: " + "[REDACTED]" == " stderr: [REDACTED]";
    Assoc(Ascii("operation=") + operation, Ascii(" stderr: "), MARK);
  }

  /** One relayed process: its log depends on the values and on all the bytes written, not on the writes; a stream that
      is one usable value is logged as the marker; the notice says exactly when something was cut off. */
  method RelayProcess(operation: bytes, values: seq<bytes>, chunks: seq<bytes>) returns (log: seq<bytes>)
    ensures log == Log(operation, Batch(Usable(values), Concat(chunks)))
    ensures var input := Concat(chunks);
            input in values && input != [] && 13 !in input && 10 !in input ==>
              log == [Ascii("operation=") + operation + Ascii(" stderr: [REDACTED]")]
    ensures var text := GatherAll([], DecodeAll(Redact(Usable(values), Concat(chunks))));
            Ascii("operation=") + operation + Ascii(" stderr_truncated=true") in log <==>
            TextSize(text) > 65536 || LineCount(text) > 512
  {
    hide Ascii, CollectAll, GatherAll, DecodeAll, Redaction.Redact, TextSize, LineCount, Log, Usable;
    var relay := new StderrRelay(values);
    for i := 0 to |chunks|
      invariant relay.Valid() && relay.secrets == Usable(values) && relay.input == Concat(chunks[..i])
      invariant fresh(relay)
    {
      assert Init(chunks[..i + 1]) == chunks[..i];
      relay.Write(chunks[i]);
    }
    assert chunks[..|chunks|] == chunks;
    log := relay.Emit(operation);
    ghost var input := Concat(chunks);
    ghost var at := UsableSelects(values);
    if input in Usable(values) {
      LoneSecretIsLoggedAsMarker(operation, Usable(values), input);
      MarkEntry(operation);
    }
    TruncatedIffTooLong(DecodeAll(Redact(Usable(values), input)));
    NoticeIffTruncated(operation, Batch(Usable(values), input));
  }
}
