/** `unicode/utf8` as the relay uses it: the byte grammar of section 4 of RFC 3629, with every
    byte that starts no well-formed sequence decoded to U+FFFD on its own. */
module Utf8 {
  import opened Text

  newtype rune = r: int | 0 <= r <= 0x10FFFF && !(0xD800 <= r <= 0xDFFF)

  const RUNE_ERROR: rune := 0xFFFD

  predicate Continuation(b: byte) {
    0x80 <= b <= 0xBF
  }

  /** Bytes announced by a first byte; 1 for ASCII and for bytes that start nothing. */
  function Need(first: byte): nat {
    if 0xC2 <= first <= 0xDF then 2
    else if 0xE0 <= first <= 0xEF then 3
    else if 0xF0 <= first <= 0xF4 then 4
    else 1
  }

  /** The second byte's range depends on the first, excluding overlong forms, surrogates and values above U+10FFFF. */
  predicate Second(first: byte, b: byte) {
    && (if first == 0xE0 then 0xA0 else if first == 0xF0 then 0x90 else 0x80) <= b
    && b <= (if first == 0xED then 0x9F else if first == 0xF4 then 0x8F else 0xBF)
  }

  /** Whether `p` starts with a sequence whose decoding no later byte can change. */
  predicate FullRune(p: bytes) {
    && p != []
    && (|| |p| >= Need(p[0])
        || (|p| > 1 && !Second(p[0], p[1]))
        || (|p| > 2 && !Continuation(p[2])))
  }

  predicate WellFormed(p: bytes)
    requires p != []
  {
    && (Need(p[0]) > 1 || p[0] < 0x80)
    && |p| >= Need(p[0])
    && (Need(p[0]) > 1 ==> Second(p[0], p[1]))
    && (Need(p[0]) > 2 ==> Continuation(p[2]))
    && (Need(p[0]) > 3 ==> Continuation(p[3]))
  }

  function Two(a: int, b: int): int {
    (a - 0xC0) * 64 + (b - 0x80)
  }

  function Three(a: int, b: int, c: int): int {
    (a - 0xE0) * 4096 + (b - 0x80) * 64 + (c - 0x80)
  }

  function Four(a: int, b: int, c: int, d: int): int {
    (a - 0xF0) * 262144 + (b - 0x80) * 4096 + (c - 0x80) * 64 + (d - 0x80)
  }

  datatype Decoded = Decoded(value: rune, size: nat)

  function DecodeRune(p: bytes): (d: Decoded)
    requires p != []
    ensures 1 <= d.size <= |p| && d.size <= 4
  {
    if !WellFormed(p) then Decoded(RUNE_ERROR, 1)
    else if Need(p[0]) == 1 then Decoded(p[0] as rune, 1)
    else if Need(p[0]) == 2 then Decoded(Two(p[0] as int, p[1] as int) as rune, 2)
    else if Need(p[0]) == 3 then Decoded(Three(p[0] as int, p[1] as int, p[2] as int) as rune, 3)
    else Decoded(Four(p[0] as int, p[1] as int, p[2] as int, p[3] as int) as rune, 4)
  }

  function DecodeAll(p: bytes): seq<rune> {
    if p == [] then []
    else [DecodeRune(p).value] + DecodeAll(p[DecodeRune(p).size..])
  }

  function RuneLen(r: rune): (n: nat)
    ensures 1 <= n <= 4
  {
    if r < 0x80 then 1 else if r < 0x800 then 2 else if r < 0x10000 then 3 else 4
  }

  /** Section 3 of RFC 3629. */
  function Encode(r: rune): (p: bytes)
    ensures |p| == RuneLen(r)
  {
    var v := r as int;
    var q1 := v / 64;
    var q2 := q1 / 64;
    if r < 0x80 then [r as byte]
    else if r < 0x800 then [(0xC0 + q1) as byte, (0x80 + v % 64) as byte]
    else if r < 0x10000 then [(0xE0 + q2) as byte, (0x80 + q1 % 64) as byte, (0x80 + v % 64) as byte]
    else [(0xF0 + q2 / 64) as byte, (0x80 + q2 % 64) as byte, (0x80 + q1 % 64) as byte, (0x80 + v % 64) as byte]
  }

  function EncodeAll(rs: seq<rune>): bytes {
    if rs == [] then [] else EncodeAll(rs[..|rs| - 1]) + Encode(rs[|rs| - 1])
  }

  /** What makes streaming possible: a full rune decodes the same whatever follows. */
  lemma FullRuneIsStable(p: bytes, more: bytes)
    requires FullRune(p)
    ensures DecodeRune(p + more) == DecodeRune(p)
  {
  }

  lemma UndecidedIsShort(p: bytes)
    requires !FullRune(p)
    ensures |p| <= 3
  {
  }

  lemma DecodeEncodedRune(r: rune, more: bytes)
    ensures DecodeRune(Encode(r) + more) == Decoded(r, RuneLen(r))
  {
    var p, e := Encode(r) + more, Encode(r);
    assert forall k :: 0 <= k < |e| ==> p[k] == e[k];
  }

  lemma EncodeAllSnoc(rs: seq<rune>, r: rune)
    ensures EncodeAll(rs + [r]) == EncodeAll(rs) + Encode(r)
  {
    assert (rs + [r])[..|rs|] == rs;
  }

  lemma {:induction false} EncodeAllCons(r: rune, rs: seq<rune>)
    ensures EncodeAll([r] + rs) == Encode(r) + EncodeAll(rs)
  {
    if rs == [] {
      EncodeAllSnoc([], r);
      assert [r] + rs == [] + [r];
    } else {
      var front, last := rs[..|rs| - 1], rs[|rs| - 1];
      EncodeAllCons(r, front);
      EncodeAllSnoc([r] + front, last);
      assert front + [last] == rs;
      Assoc([r], front, [last]);
      Assoc(Encode(r), EncodeAll(front), Encode(last));
    }
  }

  /** Decoding undoes encoding. */
  lemma {:induction false} DecodeEncoded(rs: seq<rune>)
    ensures DecodeAll(EncodeAll(rs)) == rs
  {
    if rs != [] {
      EncodeAllCons(rs[0], rs[1..]);
      assert rs == [rs[0]] + rs[1..];
      DecodeEncodedRune(rs[0], EncodeAll(rs[1..]));
      DecodeEncoded(rs[1..]);
    }
  }

  /** Encoding undoes decoding wherever the bytes are well formed; elsewhere one byte becomes U+FFFD. */
  lemma EncodeDecodedRune(p: bytes)
    requires p != []
    ensures WellFormed(p) ==> Encode(DecodeRune(p).value) == p[..DecodeRune(p).size]
    ensures !WellFormed(p) ==> DecodeRune(p) == Decoded(RUNE_ERROR, 1)
  {
    if WellFormed(p) && Need(p[0]) == 2 {
      DivideBy64(p[0] as int - 0xC0, p[1] as int - 0x80);
    } else if WellFormed(p) && Need(p[0]) == 3 {
      EncodeThree(p);
    } else if WellFormed(p) && Need(p[0]) == 4 {
      EncodeFour(p);
    }
  }

  // ---- One replacement for each ill-formed sequence, and for each byte of it.

  /** The bytes at the start that belong together: a well-formed sequence, or the longest beginning of one that is cut
      off or broken, or a byte that begins none. */
  function Together(p: bytes): (n: nat)
    requires p != []
    ensures 1 <= n <= |p|
    ensures WellFormed(p) ==> n == DecodeRune(p).size
    ensures !WellFormed(p) ==> n <= 3 && forall i :: 1 <= i < n ==> Continuation(p[i])
  {
    if WellFormed(p) then DecodeRune(p).size
    else if Need(p[0]) == 1 || |p| == 1 || !Second(p[0], p[1]) then 1
    else if Need(p[0]) == 2 || |p| == 2 || !Continuation(p[2]) then 2
    else 3
  }

  /** Decoding with one U+FFFD for each ill-formed sequence. */
  function DecodeTogether(p: bytes): seq<rune> {
    if p == [] then [] else [DecodeRune(p).value] + DecodeTogether(p[Together(p)..])
  }

  /** No ill-formed sequence has more than one byte. */
  predicate IllFormedAreSingle(p: bytes) {
    p == [] || ((WellFormed(p) || Together(p) == 1) && IllFormedAreSingle(p[Together(p)..]))
  }

  /** Inside an ill-formed sequence every byte is decoded on its own. */
  lemma {:induction false} ContinuationsStandAlone(p: bytes, n: nat)
    requires n <= |p| && forall i :: 0 <= i < n ==> Continuation(p[i])
    ensures |DecodeAll(p)| == n + |DecodeAll(p[n..])|
  {
    if n == 0 {
      assert p[0..] == p;
    } else {
      assert !WellFormed(p) && DecodeRune(p).size == 1;
      ContinuationsStandAlone(p[1..], n - 1);
      assert p[1..][n - 1..] == p[n..];
    }
  }

  /** Replacing byte by byte and replacing each ill-formed sequence as a whole agree exactly on bytes whose ill-formed
      sequences are single bytes; otherwise the first gives more replacements. */
  lemma {:induction false} ReplacedAlikeIffSingle(p: bytes)
    ensures DecodeAll(p) == DecodeTogether(p) <==> IllFormedAreSingle(p)
    ensures |DecodeAll(p)| >= |DecodeTogether(p)|
    ensures !IllFormedAreSingle(p) ==> |DecodeAll(p)| > |DecodeTogether(p)|
  {
    hide WellFormed, DecodeRune, Together;
    if p != [] {
      var n, d := Together(p), DecodeRune(p);
      ReplacedAlikeIffSingle(p[n..]);
      EncodeDecodedRune(p);
      if !WellFormed(p) {
        ContinuationsStandAlone(p[1..], n - 1);
        assert p[1..][n - 1..] == p[n..];
        assert DecodeAll(p) == [d.value] + DecodeAll(p[1..]);
      }
    }
  }

  lemma EncodeThree(p: bytes)
    requires p != [] && WellFormed(p) && Need(p[0]) == 3
    ensures Encode(DecodeRune(p).value) == p[..3]
  {
    var high := (p[0] as int - 0xE0) * 64 + (p[1] as int - 0x80);
    DivideBy64(p[0] as int - 0xE0, p[1] as int - 0x80);
    DivideBy64(high, p[2] as int - 0x80);
  }

  lemma EncodeFour(p: bytes)
    requires p != [] && WellFormed(p) && Need(p[0]) == 4
    ensures Encode(DecodeRune(p).value) == p[..4]
  {
    var high := (p[0] as int - 0xF0) * 64 + (p[1] as int - 0x80);
    var middle := high * 64 + (p[2] as int - 0x80);
    DivideBy64(p[0] as int - 0xF0, p[1] as int - 0x80);
    DivideBy64(high, p[2] as int - 0x80);
    DivideBy64(middle, p[3] as int - 0x80);
  }

  lemma DivideBy64(q: int, r: int)
    requires 0 <= r < 64
    ensures (q * 64 + r) / 64 == q && (q * 64 + r) % 64 == r
  {
  }

  /** The encoding of U+FFFD. */
  const REPLACEMENT: bytes := [0xEF, 0xBF, 0xBD]

  function Reencoded(x: bytes): bytes {
    EncodeAll(DecodeAll(x))
  }

  /** Decoding and encoding again keeps a well-formed sequence and replaces any other byte. */
  lemma ReencodedStep(x: bytes)
    requires x != []
    ensures var n := DecodeRune(x).size;
            Reencoded(x) == (if WellFormed(x) then x[..n] else REPLACEMENT) + Reencoded(x[n..])
  {
    hide WellFormed;
    var d := DecodeRune(x);
    EncodeDecodedRune(x);
    EncodeAllCons(d.value, DecodeAll(x[d.size..]));
    assert Encode(RUNE_ERROR) == REPLACEMENT;
  }

  /** `utf8.Valid`. */
  predicate ValidUtf8(p: bytes) {
    p == [] || (WellFormed(p) && ValidUtf8(p[DecodeRune(p).size..]))
  }

  /** ASCII before other bytes does not change whether they are valid. */
  lemma {:induction false} AsciiThenBytes(s: string, p: bytes)
    ensures ValidUtf8(Ascii(s) + p) <==> ValidUtf8(p)
  {
    if s == "" {
      assert Ascii(s) + p == p;
    } else {
      var all := Ascii(s) + p;
      assert all[0] < 0x80 && DecodeRune(all).size == 1 && WellFormed(all);
      assert all[1..] == Ascii(s[1..]) + p;
      AsciiThenBytes(s[1..], p);
    }
  }

  lemma AsciiIsValid(s: string)
    ensures ValidUtf8(Ascii(s))
  {
    AsciiThenBytes(s, []);
    assert Ascii(s) + [] == Ascii(s);
  }

  lemma {:induction false} ReencodedLength(p: bytes)
    ensures ValidUtf8(p) ==> Reencoded(p) == p
    ensures !ValidUtf8(p) ==> |Reencoded(p)| > |p|
    ensures |Reencoded(p)| >= |p|
  {
    hide WellFormed, DecodeRune;
    if p != [] {
      ReencodedStep(p);
      ReencodedLength(p[DecodeRune(p).size..]);
      EncodeDecodedRune(p);
    }
  }

  /** Bytes are valid exactly when they are the encoding of a text. */
  lemma ValidIffEncoded(p: bytes)
    ensures ValidUtf8(p) <==> exists rs :: p == EncodeAll(rs)
    ensures ValidUtf8(p) <==> EncodeAll(DecodeAll(p)) == p
  {
    hide ValidUtf8, EncodeAll;
    ReencodedLength(p);
    assert ValidUtf8(p) ==> p == EncodeAll(DecodeAll(p));
    forall rs | p == EncodeAll(rs)
      ensures ValidUtf8(p)
    {
      DecodeEncoded(rs);
    }
  }

  /** An ASCII suffix of the encoding is the same suffix of the text. */
  lemma EncodedAsciiSuffix(rs: seq<rune>, b: byte)
    requires b < 0x80
    ensures HasSuffix(EncodeAll(rs), [b, b]) <==> HasSuffix(rs, [b as rune, b as rune])
  {
    hide EncodeAll, Encode;
    EncodedLast(rs);
    if rs != [] && Last(rs) == b as rune {
      var front := Init(rs);
      InitLast(rs);
      EncodedLast(front);
      EncodeAllSnoc(front, b as rune);
      EncodeAscii(b);
      SuffixOfTwo(EncodeAll(front), b);
      SuffixOfTwo(front, b as rune);
    } else {
      NoSuffixOfTwo(rs, b as rune);
      NoSuffixOfTwo(EncodeAll(rs), b);
    }
  }

  lemma EncodeAscii(b: byte)
    requires b < 0x80
    ensures Encode(b as rune) == [b]
  {
  }

  lemma NoSuffixOfTwo<T>(s: seq<T>, x: T)
    requires s == [] || Last(s) != x
    ensures !HasSuffix(s, [x, x])
  {
    if |s| >= 2 {
      assert s[|s| - 2..][1] == Last(s);
    }
  }

  lemma SuffixOfTwo<T>(s: seq<T>, x: T)
    ensures HasSuffix(s + [x], [x, x]) <==> s != [] && s[|s| - 1] == x
  {
    if s != [] {
      assert (s + [x])[|s| - 1..] == [s[|s| - 1], x];
    }
  }

  lemma EncodedLast(rs: seq<rune>)
    ensures rs == [] <==> EncodeAll(rs) == []
    ensures rs != [] ==>
              var last := EncodeAll(rs)[|EncodeAll(rs)| - 1];
              if rs[|rs| - 1] < 0x80 then last as int == rs[|rs| - 1] as int else last >= 0x80
  {
    if rs != [] {
      var front, e := EncodeAll(rs[..|rs| - 1]), Encode(rs[|rs| - 1]);
      assert (front + e)[|front + e| - 1] == e[|e| - 1];
    }
  }
}
