/** Stage three of the stderr relay: filtering runes into bounded, non-empty lines. */
module Collection {
  import opened Text
  import opened Utf8

  const MAX_BYTES: nat := 65536
  const MAX_LINES: nat := 512
  const NL: rune := 10
  const TAB: rune := 9
  const HASH: rune := 35
  const BRACKET: rune := 91

  /** Control characters and bidirectional marks that never reach the log. */
  predicate Stripped(r: rune) {
    || (r < 32 && r != NL && r != TAB)
    || 127 <= r <= 159
    || r == 0x061C || r == 0x200E || r == 0x200F
    || 0x202A <= r <= 0x202E
    || 0x2066 <= r <= 0x2069
  }

  /** The runes that pass: tab, line feed, printable ASCII, and from U+00A0 on all but the bidirectional marks. */
  lemma PassingRunes(r: rune)
    ensures !Stripped(r) <==>
            || r == 9 || r == 10 || 32 <= r <= 126 || 160 <= r <= 0x061B || 0x061D <= r <= 0x200D
            || 0x2010 <= r <= 0x2029 || 0x202F <= r <= 0x2065 || r >= 0x206A
  {
  }

  datatype Collector = Collector(text: seq<rune>, size: nat, lines: nat, inLine: bool, truncated: bool)

  const EMPTY := Collector([], 0, 0, false, false)

  function Collect(c: Collector, r: rune): Collector {
    if c.truncated || Stripped(r) then c
    else if r == BRACKET && HasSuffix(c.text, [HASH, HASH]) then c
    else if r == NL then
      if c.inLine then c.(text := c.text + [NL], inLine := false) else c
    else if c.size + RuneLen(r) > MAX_BYTES || (!c.inLine && c.lines == MAX_LINES) then c.(truncated := true)
    else Collector(c.text + [r], c.size + RuneLen(r), if c.inLine then c.lines else c.lines + 1, true, false)
  }

  function CollectAll(c: Collector, rs: seq<rune>): Collector
    decreases |rs|
  {
    if rs == [] then c else CollectAll(Collect(c, rs[0]), rs[1..])
  }

  lemma {:induction false} TruncatedAbsorbs(c: Collector, rs: seq<rune>)
    requires c.truncated
    ensures CollectAll(c, rs) == c
  {
    if rs != [] {
      TruncatedAbsorbs(c, rs[1..]);
    }
  }

  // ---- What a collected text is, said without the collector's fields.

  function TextSize(t: seq<rune>): nat {
    if t == [] then 0
    else TextSize(t[..|t| - 1]) + if t[|t| - 1] == NL then 0 else RuneLen(t[|t| - 1])
  }

  function LineCount(t: seq<rune>): nat {
    |NonEmpty(Split(t, NL))|
  }

  predicate InLine(t: seq<rune>) {
    t != [] && t[|t| - 1] != NL
  }

  predicate Fits(t: seq<rune>) {
    TextSize(t) <= MAX_BYTES && LineCount(t) <= MAX_LINES
  }

  /** No filtered rune, no `##[`, no empty line. */
  ghost predicate Clean(t: seq<rune>) {
    forall i :: 0 <= i < |t| ==> CleanAt(t, i)
  }

  ghost predicate CleanAt(t: seq<rune>, i: nat)
    requires i < |t|
  {
    && !Stripped(t[i])
    && !(t[i] == BRACKET && HasSuffix(t[..i], [HASH, HASH]))
    && (t[i] == NL ==> InLine(t[..i]))
  }

  lemma CleanSnoc(t: seq<rune>, r: rune)
    ensures Clean(t + [r]) <==> Clean(t) && CleanAt(t + [r], |t|)
  {
    assert forall i :: 0 <= i < |t| ==> (t + [r])[..i] == t[..i];
    assert forall i :: 0 <= i < |t| ==> (CleanAt(t, i) <==> CleanAt(t + [r], i));
  }

  lemma CleanHasNoCommand(t: seq<rune>, i: nat)
    requires Clean(t) && i + 3 <= |t|
    ensures t[i..i + 3] != [HASH, HASH, BRACKET]
  {
    assert CleanAt(t, i + 2);
    assert t[i..i + 3][2] == t[i + 2];
    assert t[..i + 2][i..] == t[i..i + 3][..2];
  }

  lemma TextSizeSnoc(t: seq<rune>, r: rune)
    ensures TextSize(t + [r]) == TextSize(t) + if r == NL then 0 else RuneLen(r)
  {
    assert (t + [r])[..|t|] == t;
  }

  lemma {:induction false} LastPiece(t: seq<rune>)
    ensures Last(Split(t, NL)) != [] <==> InLine(t)
  {
    if t != [] {
      SplitSnoc(Init(t), Last(t), NL);
      assert t == Init(t) + [Last(t)];
    }
  }

  lemma LineCountSnoc(t: seq<rune>, r: rune)
    ensures LineCount(t + [r]) == LineCount(t) + if r != NL && !InLine(t) then 1 else 0
  {
    LastPiece(t);
    SplitSnoc(t, r, NL);
    NonEmptyInit(Split(t, NL));
    NonEmptyInit(Split(t + [r], NL));
  }

  /** Invariant of every reachable collector. */
  ghost predicate Sound(c: Collector) {
    && Clean(c.text)
    && c.inLine == InLine(c.text)
    && c.size == TextSize(c.text) && c.lines == LineCount(c.text)
    && Fits(c.text)
  }

  lemma CollectKeepsSound(c: Collector, r: rune)
    requires Sound(c)
    ensures Sound(Collect(c, r))
  {
    TextSizeSnoc(c.text, r);
    LineCountSnoc(c.text, r);
    if Collect(c, r).text != c.text {
      AdmittedIsClean(c.text, r);
    }
  }

  lemma AdmittedIsClean(t: seq<rune>, r: rune)
    requires Clean(t) && !Stripped(r)
    requires !(r == BRACKET && HasSuffix(t, [HASH, HASH])) && (r == NL ==> InLine(t))
    ensures Clean(t + [r]) && InLine(t + [r]) == (r != NL)
  {
    assert (t + [r])[..|t|] == t;
    CleanSnoc(t, r);
  }

  lemma EmptyIsSound()
    ensures Sound(EMPTY)
  {
    NonEmptyInit(Split<rune>([], NL));
  }

  // ---- The same filter without budgets.

  function Gather(t: seq<rune>, r: rune): seq<rune> {
    if Stripped(r) || (r == BRACKET && HasSuffix(t, [HASH, HASH])) || (r == NL && !InLine(t)) then t
    else t + [r]
  }

  function GatherAll(t: seq<rune>, rs: seq<rune>): seq<rune>
    decreases |rs|
  {
    if rs == [] then t else GatherAll(Gather(t, rs[0]), rs[1..])
  }

  /** `c` holds the longest beginning of the unbounded text `t` that fits the budgets. */
  ghost predicate LongestFitting(c: Collector, t: seq<rune>) {
    && Sound(c)
    && c.text <= t
    && (c.truncated <==> c.text != t)
    && (c.truncated ==> !Fits(t[..|c.text| + 1]))
  }

  lemma LongestFittingStep(c: Collector, t: seq<rune>, r: rune)
    requires LongestFitting(c, t)
    ensures LongestFitting(Collect(c, r), Gather(t, r))
  {
    CollectKeepsSound(c, r);
    hide Sound, Fits;
    if c.truncated {
      assert |c.text| < |t|;
      assert Gather(t, r)[..|c.text| + 1] == t[..|c.text| + 1];
    } else {
      BustsBudget(c, t, r);
      assert (t + [r])[..|t| + 1] == t + [r];
    }
  }

  lemma BustsBudget(c: Collector, t: seq<rune>, r: rune)
    requires Sound(c) && c.text == t
    ensures !c.truncated && Collect(c, r).truncated ==> !Fits(t + [r])
  {
    hide Clean, LineCount, TextSize;
    TextSizeSnoc(t, r);
    LineCountSnoc(t, r);
  }

  lemma {:induction false} CollectKeepsLongestFitting(c: Collector, t: seq<rune>, rs: seq<rune>)
    requires LongestFitting(c, t)
    ensures LongestFitting(CollectAll(c, rs), GatherAll(t, rs))
    decreases |rs|
  {
    if rs != [] {
      LongestFittingStep(c, t, rs[0]);
      CollectKeepsLongestFitting(Collect(c, rs[0]), Gather(t, rs[0]), rs[1..]);
    }
  }

  /** The relay keeps exactly the longest fitting beginning, and says so exactly when something is missing. */
  lemma CollectIsLongestFitting(rs: seq<rune>)
    ensures LongestFitting(CollectAll(EMPTY, rs), GatherAll([], rs))
  {
    EmptyIsSound();
    CollectKeepsLongestFitting(EMPTY, [], rs);
  }

  /** Removal of filtered runes and of `[` after `##`, with no regard for lines. */
  function Sift(f: seq<rune>, rs: seq<rune>): seq<rune>
    decreases |rs|
  {
    if rs == [] then f
    else if Stripped(rs[0]) || (rs[0] == BRACKET && HasSuffix(f, [HASH, HASH])) then Sift(f, rs[1..])
    else Sift(f + [rs[0]], rs[1..])
  }

  ghost predicate SameLines(t: seq<rune>, f: seq<rune>) {
    var a, b := Split(t, NL), Split(f, NL);
    Last(a) == Last(b) && NonEmpty(Init(a)) == NonEmpty(Init(b))
  }

  /** `last` is what follows the last line break of `t`. */
  ghost predicate AfterLastBreak(t: seq<rune>, last: seq<rune>) {
    && HasSuffix(t, last)
    && (|last| < |t| ==> t[|t| - |last| - 1] == NL)
  }

  lemma {:induction false} LastPieceSuffix(t: seq<rune>)
    ensures AfterLastBreak(t, Last(Split(t, NL)))
  {
    if t != [] {
      hide Split, AfterLastBreak;
      InitLast(t);
      LastPieceSuffix(Init(t));
      SplitSnoc(Init(t), Last(t), NL);
      AfterLastBreakStep(Init(t), Last(t), Last(Split(Init(t), NL)));
    }
  }

  lemma AfterLastBreakStep(t: seq<rune>, r: rune, last: seq<rune>)
    requires AfterLastBreak(t, last)
    ensures AfterLastBreak(t + [r], if r == NL then [] else last + [r])
  {
    DropPrefix(t, [r], |t| - |last|);
  }

  lemma HashesAreInLastPiece(t: seq<rune>)
    ensures HasSuffix(t, [HASH, HASH]) <==> HasSuffix(Last(Split(t, NL)), [HASH, HASH])
  {
    LastPieceSuffix(t);
    var last := Last(Split(t, NL));
    if |last| >= 2 {
      assert t[|t| - 2..] == last[|last| - 2..];
    } else if |t| >= 2 {
      assert t[|t| - 2..] == [t[|t| - 2], t[|t| - 1]];
    }
  }

  lemma SameLinesStep(t: seq<rune>, f: seq<rune>, r: rune)
    requires SameLines(t, f)
    ensures HasSuffix(t, [HASH, HASH]) <==> HasSuffix(f, [HASH, HASH])
    ensures SameLines(if r == NL && !InLine(t) then t else t + [r], f + [r])
  {
    HashesAreInLastPiece(t);
    HashesAreInLastPiece(f);
    LastPiece(t);
    SplitSnoc(t, r, NL);
    SplitSnoc(f, r, NL);
    NonEmptyInit(Split(t, NL));
    NonEmptyInit(Split(f, NL));
  }

  lemma {:induction false} GatherKeepsLines(t: seq<rune>, f: seq<rune>, rs: seq<rune>)
    requires SameLines(t, f)
    ensures SameLines(GatherAll(t, rs), Sift(f, rs))
    decreases |rs|
  {
    if rs != [] {
      SameLinesStep(t, f, rs[0]);
      if Stripped(rs[0]) || (rs[0] == BRACKET && HasSuffix(f, [HASH, HASH])) {
        GatherKeepsLines(t, f, rs[1..]);
      } else {
        GatherKeepsLines(Gather(t, rs[0]), f + [rs[0]], rs[1..]);
      }
    }
  }

  /** Without budgets the relayed lines are the non-empty lines of the sifted stream. */
  lemma GatheredLines(rs: seq<rune>)
    ensures NonEmpty(Split(GatherAll([], rs), NL)) == NonEmpty(Split(Sift([], rs), NL))
  {
    GatherKeepsLines([], [], rs);
    NonEmptyInit(Split(GatherAll([], rs), NL));
    NonEmptyInit(Split(Sift([], rs), NL));
  }

  /** Clean text passes the filter unchanged. */
  lemma {:induction false} GatherKeepsClean(t: seq<rune>, rs: seq<rune>)
    requires Clean(t + rs)
    ensures GatherAll(t, rs) == t + rs
    decreases |rs|
  {
    if rs == [] {
      assert t + rs == t;
    } else {
      assert CleanAt(t + rs, |t|) && (t + rs)[..|t|] == t && (t + rs)[|t|] == rs[0];
      assert t + [rs[0]] + rs[1..] == t + rs;
      GatherKeepsClean(t + [rs[0]], rs[1..]);
    }
  }

  lemma {:induction false} FitsIsPrefixClosed(t: seq<rune>, k: nat)
    requires k <= |t| && Fits(t)
    ensures Fits(t[..k])
    decreases |t|
  {
    if k < |t| {
      hide LineCount, TextSize;
      InitLast(t);
      TextSizeSnoc(Init(t), Last(t));
      LineCountSnoc(Init(t), Last(t));
      FitsIsPrefixClosed(Init(t), k);
      assert Init(t)[..k] == t[..k];
    } else {
      assert t[..k] == t;
    }
  }

  /** Line breaks cost no budget but at most one byte a line. */
  lemma {:induction false} EncodedSize(t: seq<rune>)
    requires Clean(t)
    ensures |EncodeAll(t)| + (if InLine(t) then 1 else 0) == TextSize(t) + LineCount(t)
  {
    if t == [] {
      EmptyIsSound();
    } else {
      hide LineCount, TextSize, EncodeAll, Clean;
      InitLast(t);
      CleanSnoc(Init(t), Last(t));
      TextSizeSnoc(Init(t), Last(t));
      LineCountSnoc(Init(t), Last(t));
      EncodeAllSnoc(Init(t), Last(t));
      assert t[..|t| - 1] == Init(t);
      EncodedSize(Init(t));
    }
  }

  // ---- Lines of the encoded payload.

  lemma {:induction false} SplitAppend(s: bytes, x: bytes, sep: byte)
    requires sep !in x
    ensures Split(s + x, sep) == Init(Split(s, sep)) + [Last(Split(s, sep)) + x]
  {
    if x == [] {
      assert s + x == s && Last(Split(s, sep)) + x == Last(Split(s, sep));
      InitLast(Split(s, sep));
    } else {
      hide Split;
      var y, b, last := Init(x), Last(x), Last(Split(s, sep));
      InitLast(x);
      SplitAppend(s, y, sep);
      SplitSnoc(s + y, b, sep);
      Assoc(s, y, [b]);
      Assoc(last, y, [b]);
      assert Init(Init(Split(s, sep)) + [last + y]) == Init(Split(s, sep));
    }
  }

  ghost predicate EncodedPieces(lines: seq<seq<rune>>, raw: seq<bytes>) {
    |raw| == |lines| && forall k :: 0 <= k < |lines| ==> raw[k] == EncodeAll(lines[k])
  }

  /** Splitting the encoded payload is encoding the lines of the text. */
  lemma {:induction false} EncodedLines(t: seq<rune>)
    ensures EncodedPieces(Split(t, NL), Split(EncodeAll(t), 10))
  {
    if t != [] {
      var front, r := Init(t), Last(t);
      assert t == front + [r];
      EncodedLines(front);
      EncodedLinesStep(front, r);
    }
  }

  lemma EncodedLinesStep(t: seq<rune>, r: rune)
    requires EncodedPieces(Split(t, NL), Split(EncodeAll(t), 10))
    ensures EncodedPieces(Split(t + [r], NL), Split(EncodeAll(t + [r]), 10))
  {
    hide Split, EncodeAll;
    SplitSnoc(t, r, NL);
    EncodeAllSnoc(t, r);
    if r == NL {
      assert Encode(r) == [10];
      SplitSnoc(EncodeAll(t), 10, 10);
      EmptyEncodes();
    } else {
      EncodedHasNoNewline(r);
      assert (10 as byte) !in Encode(r);
      SplitAppend(EncodeAll(t), Encode(r), 10);
      EncodeAllSnoc(Last(Split(t, NL)), r);
      PiecesExtend(Split(t, NL), Split(EncodeAll(t), 10), r);
    }
  }

  lemma EmptyEncodes()
    ensures EncodeAll([]) == []
  {
  }

  lemma EncodedHasNoNewline(r: rune)
    requires r != NL
    ensures 10 !in Encode(r)
  {
  }

  lemma PiecesExtend(lines: seq<seq<rune>>, raw: seq<bytes>, r: rune)
    requires lines != [] && EncodedPieces(lines, raw)
    ensures EncodedPieces(Init(lines) + [Last(lines) + [r]], Init(raw) + [Last(raw) + Encode(r)])
  {
    EncodeAllSnoc(Last(lines), r);
  }

  lemma {:induction false} EncodedNonEmpty(lines: seq<seq<rune>>, raw: seq<bytes>)
    requires EncodedPieces(lines, raw)
    ensures EncodedPieces(NonEmpty(lines), NonEmpty(raw))
  {
    if lines != [] {
      EncodedNonEmpty(Init(lines), Init(raw));
      EncodedLast(Last(lines));
    }
  }
}
