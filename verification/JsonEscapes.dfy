/** `validateUnicodeEscapes`: the jumping scan for surrogate escapes in raw JSON text. */
module JsonEscapes {
  import opened Text

  const QUOTE: byte := 34
  const BACKSLASH: byte := 92
  const U: byte := 117

  function HexValue(b: byte): (v: Option<nat>)
    ensures v.Some? ==> v.value < 16
  {
    if 48 <= b <= 57 then Some(b as nat - 48)
    else if 97 <= b <= 102 then Some(b as nat - 97 + 10)
    else if 65 <= b <= 70 then Some(b as nat - 65 + 10)
    else None
  }

  predicate FourHex(s: bytes) {
    |s| == 4 && forall i :: 0 <= i < 4 ==> HexValue(s[i]).Some?
  }

  /** The 16-bit unit four hexadecimal digits stand for. */
  function Unit(s: bytes): (u: nat)
    requires FourHex(s)
    ensures u < 0x1_0000
  {
    ((HexValue(s[0]).value * 16 + HexValue(s[1]).value) * 16 + HexValue(s[2]).value) * 16 + HexValue(s[3]).value
  }

  predicate High(u: nat) {
    0xD800 <= u <= 0xDBFF
  }

  predicate Low(u: nat) {
    0xDC00 <= u <= 0xDFFF
  }

  /** `decodeCodeUnit`; the accumulation in 16 bits never loses anything. */
  method DecodeCodeUnit(data: bytes, start: nat) returns (unit: Option<nat>)
    ensures unit.Some? <==> start + 4 <= |data| && FourHex(data[start..start + 4])
    ensures unit.Some? ==> unit == Some(Unit(data[start..start + 4]))
  {
    if start + 4 > |data| {
      return None;
    }
    ghost var digits := data[start..start + 4];
    var codeUnit: nat := 0;
    var offset := start;
    while offset < start + 4
      invariant start <= offset <= start + 4
      invariant forall i :: 0 <= i < offset - start ==> HexValue(digits[i]).Some?
      invariant codeUnit == Accumulated(digits, offset - start)
    {
      assert data[offset] == digits[offset - start];
      var hex := HexValue(data[offset]);
      if hex.None? {
        return None;
      }
      AccumulatedFits(digits, offset - start);
      codeUnit := (codeUnit * 16 + hex.value) % 0x1_0000;
      offset := offset + 1;
    }
    AccumulatedIsUnit(digits);
    unit := Some(codeUnit);
  }

  lemma AccumulatedIsUnit(s: bytes)
    requires FourHex(s)
    ensures Accumulated(s, 4) == Unit(s)
  {
    assert Accumulated(s, 1) == HexValue(s[0]).value;
    assert Accumulated(s, 2) == Accumulated(s, 1) * 16 + HexValue(s[1]).value;
    assert Accumulated(s, 3) == Accumulated(s, 2) * 16 + HexValue(s[2]).value;
  }

  function Accumulated(s: bytes, n: nat): nat
    requires n <= |s| && forall i :: 0 <= i < n ==> HexValue(s[i]).Some?
  {
    if n == 0 then 0 else Accumulated(s, n - 1) * 16 + HexValue(s[n - 1]).value
  }

  lemma AccumulatedFits(s: bytes, n: nat)
    requires n < 4 <= |s| && forall i :: 0 <= i < n ==> HexValue(s[i]).Some?
    ensures Accumulated(s, n) * 16 + 15 < 0x1_0000
  {
    if n > 0 {
      assert Accumulated(s, n) == Accumulated(s, n - 1) * 16 + HexValue(s[n - 1]).value;
    }
    if n > 1 {
      assert Accumulated(s, n - 1) == Accumulated(s, n - 2) * 16 + HexValue(s[n - 2]).value;
    }
    if n > 2 {
      assert Accumulated(s, n - 2) == Accumulated(s, n - 3) * 16 + HexValue(s[n - 3]).value;
    }
  }

  // ---- The reference: text as a sequence of lexical items.

  /** Outside strings every byte but the quote is one item; inside, an escape is one item. */
  datatype Item = Outside(b: byte) | Quote | Plain(b: byte) | Simple(b: byte) | Escape(hex: bytes)

  function Print(item: Item): bytes {
    match item
    case Outside(b) => [b]
    case Quote => [QUOTE]
    case Plain(b) => [b]
    case Simple(b) => [BACKSLASH, b]
    case Escape(hex) => [BACKSLASH, U] + hex
  }

  function PrintAll(items: seq<Item>): bytes {
    if items == [] then [] else Print(items[0]) + PrintAll(items[1..])
  }

  /** The item may stand where the text is inside or outside a string. */
  predicate Fits(item: Item, inString: bool) {
    match item
    case Outside(b) => !inString && b != QUOTE
    case Quote => true
    case Plain(b) => inString && b != QUOTE && b != BACKSLASH
    case Simple(b) => inString && b != U
    case Escape(hex) => inString && FourHex(hex)
  }

  /** Items alternate correctly in and out of strings, and their escapes spell well-formed UTF-16: every high
      surrogate is directly followed by a low one, and no low one stands alone. */
  predicate WellFormed(items: seq<Item>, inString: bool) {
    items == [] ||
    (&& Fits(items[0], inString)
     && if items[0].Escape? && High(Unit(items[0].hex)) then
          && |items| >= 2 && items[1].Escape? && Fits(items[1], inString) && Low(Unit(items[1].hex))
          && WellFormed(items[2..], inString)
        else
          && !(items[0].Escape? && Low(Unit(items[0].hex)))
          && WellFormed(items[1..], if items[0].Quote? then !inString else inString))
  }

  ghost predicate Acceptable(data: bytes, inString: bool) {
    exists items :: WellFormed(items, inString) && data == PrintAll(items)
  }

  lemma PrintAllCons(item: Item, items: seq<Item>)
    ensures PrintAll([item] + items) == Print(item) + PrintAll(items)
  {
    assert ([item] + items)[1..] == items;
  }

  lemma NothingIsAcceptable(inString: bool)
    ensures Acceptable([], inString)
  {
    assert WellFormed([], inString) && PrintAll([]) == [];
  }

  /** The first item of a text is determined by its first bytes. */
  lemma FirstItem(data: bytes, inString: bool) returns (items: seq<Item>)
    requires data != [] && Acceptable(data, inString)
    ensures items != [] && WellFormed(items, inString) && data == Print(items[0]) + PrintAll(items[1..])
  {
    items :| WellFormed(items, inString) && data == PrintAll(items);
  }

  /** An item that is no surrogate can be taken off the front. */
  lemma TakeItem(item: Item, rest: bytes, inString: bool)
    requires Fits(item, inString)
    requires item.Escape? ==> !High(Unit(item.hex)) && !Low(Unit(item.hex))
    ensures Acceptable(Print(item) + rest, inString) <==> Acceptable(rest, if item.Quote? then !inString else inString)
  {
    var data, then' := Print(item) + rest, if item.Quote? then !inString else inString;
    if Acceptable(data, inString) {
      var items := FirstItem(data, inString);
      SameFirstItem(items[0], PrintAll(items[1..]), item, rest, inString);
      assert Acceptable(rest, then');
    }
    if Acceptable(rest, then') {
      var items :| WellFormed(items, then') && rest == PrintAll(items);
      PrintAllCons(item, items);
      assert ([item] + items)[1..] == items;
      assert WellFormed([item] + items, inString);
    }
  }

  lemma SameFirstItem(a: Item, restA: bytes, b: Item, restB: bytes, inString: bool)
    requires Fits(a, inString) && Fits(b, inString)
    requires Print(a) + restA == Print(b) + restB
    ensures a == b && restA == restB
  {
    var data := Print(a) + restA;
    assert data[0] == Print(a)[0] == Print(b)[0];
    if a.Escape? || a.Simple? {
      assert data[1] == Print(a)[1] == Print(b)[1];
    }
    if a.Escape? {
      assert data[2..6] == a.hex && data[2..6] == b.hex;
    }
    assert data[|Print(a)|..] == restA && data[|Print(b)|..] == restB;
  }

  /** A surrogate pair can be taken off the front. */
  lemma TakePair(high: bytes, low: bytes, rest: bytes)
    requires FourHex(high) && FourHex(low) && High(Unit(high)) && Low(Unit(low))
    ensures Acceptable(Print(Escape(high)) + (Print(Escape(low)) + rest), true) <==> Acceptable(rest, true)
  {
    var data := Print(Escape(high)) + (Print(Escape(low)) + rest);
    if Acceptable(data, true) {
      var items := FirstItem(data, true);
      SameFirstItem(items[0], PrintAll(items[1..]), Escape(high), Print(Escape(low)) + rest, true);
      assert items[1..][1..] == items[2..];
      SameFirstItem(items[1], PrintAll(items[2..]), Escape(low), rest, true);
      assert Acceptable(rest, true);
    }
    if Acceptable(rest, true) {
      var items :| WellFormed(items, true) && rest == PrintAll(items);
      PrintAllCons(Escape(low), items);
      PrintAllCons(Escape(high), [Escape(low)] + items);
      var all := [Escape(high)] + ([Escape(low)] + items);
      assert all[1] == Escape(low) && all[2..] == items;
      assert WellFormed(all, true);
    }
  }

  /** What an acceptable string content that starts with a backslash must look like. */
  lemma EscapeStart(data: bytes)
    requires data != [] && data[0] == BACKSLASH && Acceptable(data, true)
    ensures |data| >= 2
    ensures data[1] == U ==> |data| >= 6 && FourHex(data[2..6]) && !Low(Unit(data[2..6]))
    ensures data[1] == U && High(Unit(data[2..6])) ==>
              && |data| >= 12 && data[6] == BACKSLASH && data[7] == U && FourHex(data[8..12]) && Low(Unit(data[8..12]))
  {
    var items := FirstItem(data, true);
    var rest := PrintAll(items[1..]);
    if data[1] == U {
      assert items[0].Escape? && data[2..6] == items[0].hex;
      if High(Unit(items[0].hex)) {
        assert rest == Print(items[1]) + PrintAll(items[1..][1..]);
        assert data[6..] == rest;
        assert data[8..12] == items[1].hex;
      }
    }
  }

  lemma Slice(data: bytes, from: nat, i: nat, j: nat)
    requires i <= j && from + j <= |data|
    ensures data[from..][i..j] == data[from + i..from + j]
    ensures data[from..][i..] == data[from + i..]
  {
  }

  lemma EscapeText(s: bytes)
    requires |s| >= 6 && s[0] == BACKSLASH && s[1] == U
    ensures s == Print(Escape(s[2..6])) + s[6..]
  {
  }

  /** What decides the text at a quote, a byte outside strings, or an ordinary byte inside one. */
  lemma StepOverByte(rest: bytes, inString: bool)
    requires rest != [] && !(inString && rest[0] == BACKSLASH)
    ensures Acceptable(rest, inString) <==> Acceptable(rest[1..], if rest[0] == QUOTE then !inString else inString)
  {
    hide Acceptable;
    var item := if rest[0] == QUOTE then Quote else if inString then Plain(rest[0]) else Outside(rest[0]);
    assert rest == Print(item) + rest[1..];
    TakeItem(item, rest[1..], inString);
  }

  /** What decides the text at a backslash inside a string. */
  lemma StepOverEscape(rest: bytes)
    requires rest != [] && rest[0] == BACKSLASH
    ensures Acceptable(rest, true) <==>
            |rest| >= 2 &&
            if rest[1] != U then Acceptable(rest[2..], true)
            else
              |rest| >= 6 && FourHex(rest[2..6]) &&
              if High(Unit(rest[2..6])) then
                && |rest| >= 12 && rest[6] == BACKSLASH && rest[7] == U && FourHex(rest[8..12])
                && Low(Unit(rest[8..12])) && Acceptable(rest[12..], true)
              else !Low(Unit(rest[2..6])) && Acceptable(rest[6..], true)
  {
    hide Acceptable, FourHex, Unit;
    if Acceptable(rest, true) {
      EscapeStart(rest);
    }
    if |rest| >= 2 && rest[1] != U {
      assert rest == Print(Simple(rest[1])) + rest[2..];
      TakeItem(Simple(rest[1]), rest[2..], true);
    } else if |rest| >= 6 && rest[1] == U && FourHex(rest[2..6]) {
      EscapeText(rest);
      if !High(Unit(rest[2..6])) && !Low(Unit(rest[2..6])) {
        TakeItem(Escape(rest[2..6]), rest[6..], true);
      } else if |rest| >= 12 && rest[6] == BACKSLASH && rest[7] == U && FourHex(rest[8..12]) {
        Slice(rest, 6, 2, 6);
        Slice(rest, 6, 6, 6);
        EscapeText(rest[6..]);
        if High(Unit(rest[2..6])) && Low(Unit(rest[8..12])) {
          TakePair(rest[2..6], rest[8..12], rest[12..]);
        }
      }
    }
  }

  /** Accepts exactly the texts that split into well-formed items. */
  method ValidateUnicodeEscapes(data: bytes) returns (ok: bool)
    ensures ok <==> Acceptable(data, false)
  {
    hide Acceptable, Unit, FourHex;
    var inString := false;
    var offset := 0;
    assert data[0..] == data;
    while offset < |data|
      invariant 0 <= offset <= |data|
      invariant Acceptable(data, false) <==> Acceptable(data[offset..], inString)
      decreases |data| - offset
    {
      ghost var rest, from := data[offset..], offset;
      if data[offset] == BACKSLASH && inString {
        StepOverEscape(rest);
      } else {
        StepOverByte(rest, inString);
      }
      if data[offset] == QUOTE {
        inString := !inString;
      } else if data[offset] == BACKSLASH && inString {
        if offset + 1 >= |data| {
          return false;
        }
        if data[offset + 1] != U {
          offset := offset + 1;
        } else {
          if |rest| >= 6 {
            Slice(data, from, 2, 6);
          }
          var first := DecodeCodeUnit(data, offset + 2);
          if first.None? {
            return false;
          }
          offset := offset + 5;
          if High(first.value) {
            if offset + 6 >= |data| || data[offset + 1] != BACKSLASH || data[offset + 2] != U {
              return false;
            }
            Slice(data, from, 8, 12);
            var second := DecodeCodeUnit(data, offset + 3);
            if second.None? {
              return false;
            }
            if second.value < 0xDC00 || second.value > 0xDFFF {
              return false;
            }
            offset := offset + 6;
          } else if Low(first.value) {
            return false;
          }
        }
      }
      offset := offset + 1;
      Slice(data, from, offset - from, offset - from);
    }
    NothingIsAcceptable(inString);
    assert data[offset..] == [];
    ok := true;
  }

  // ---- Escaped UTF-16 inside a string.

  /** Well-formed UTF-16 (section 7 of RFC 8259, section 2.1 of RFC 7493): surrogates come in high-low pairs. */
  predicate WellFormedUtf16(units: seq<nat>) {
    units == [] ||
    if High(units[0]) then |units| >= 2 && Low(units[1]) && WellFormedUtf16(units[2..])
    else !Low(units[0]) && WellFormedUtf16(units[1..])
  }

  function Units(hexes: seq<bytes>): (units: seq<nat>)
    requires forall i :: 0 <= i < |hexes| ==> FourHex(hexes[i])
    ensures |units| == |hexes| && forall i :: 0 <= i < |hexes| ==> units[i] == Unit(hexes[i])
  {
    seq(|hexes|, i requires 0 <= i < |hexes| => Unit(hexes[i]))
  }

  function Escapes(hexes: seq<bytes>): bytes {
    if hexes == [] then [] else Print(Escape(hexes[0])) + Escapes(hexes[1..])
  }

  lemma {:induction false} EscapesThenQuote(hexes: seq<bytes>)
    requires forall i :: 0 <= i < |hexes| ==> FourHex(hexes[i])
    ensures Acceptable(Escapes(hexes) + [QUOTE], true) <==> WellFormedUtf16(Units(hexes))
    decreases |hexes|
  {
    var rest := Escapes(hexes) + [QUOTE];
    if hexes == [] {
      StepOverByte(rest, true);
      NothingIsAcceptable(false);
      assert rest[1..] == [];
    } else {
      hide Acceptable, Unit;
      var tail := Escapes(hexes[1..]) + [QUOTE];
      assert rest == Print(Escape(hexes[0])) + tail;
      assert rest[2..6] == hexes[0] && rest[6..] == tail;
      StepOverEscape(rest);
      EscapesThenQuote(hexes[1..]);
      assert Units(hexes)[1..] == Units(hexes[1..]);
      if |hexes| >= 2 {
        var last := Escapes(hexes[2..]) + [QUOTE];
        assert hexes[1..][1..] == hexes[2..];
        assert tail == Print(Escape(hexes[1])) + last;
        assert tail[2..6] == hexes[1] && tail[6..] == last;
        Slice(rest, 6, 2, 6);
        Slice(rest, 6, 6, 6);
        EscapesThenQuote(hexes[2..]);
        assert Units(hexes)[2..] == Units(hexes[2..]);
      } else {
        assert tail == [QUOTE];
      }
    }
  }

  /** Whether the text after the items is inside a string. */
  function StringAfter(items: seq<Item>, inString: bool): bool {
    if items == [] then inString
    else StringAfter(items[1..], if items[0].Quote? then !inString else inString)
  }

  lemma {:induction false} SkipItems(items: seq<Item>, rest: bytes, inString: bool)
    requires WellFormed(items, inString)
    ensures Acceptable(PrintAll(items) + rest, inString) <==> Acceptable(rest, StringAfter(items, inString))
    decreases |items|
  {
    if items == [] {
      NothingAdded(rest);
    } else {
      hide Acceptable, FourHex, Unit;
      var item, tail := items[0], PrintAll(items[1..]) + rest;
      Assoc(Print(item), PrintAll(items[1..]), rest);
      if item.Escape? && High(Unit(item.hex)) {
        var last := PrintAll(items[2..]) + rest;
        assert items[1..][1..] == items[2..];
        Assoc(Print(items[1]), PrintAll(items[2..]), rest);
        assert tail == Print(items[1]) + last;
        TakePair(item.hex, items[1].hex, last);
        SkipItems(items[2..], rest, inString);
      } else {
        TakeItem(item, tail, inString);
        SkipItems(items[1..], rest, if item.Quote? then !inString else inString);
      }
    }
  }

  /** After any well-formed text that ends inside a string, a run of escapes up to the closing quote is accepted
      exactly when the units they spell are well-formed UTF-16. */
  lemma EscapesAreAcceptedIffUtf16(before: seq<Item>, hexes: seq<bytes>)
    requires WellFormed(before, false) && StringAfter(before, false)
    requires forall i :: 0 <= i < |hexes| ==> FourHex(hexes[i])
    ensures Acceptable(PrintAll(before) + (Escapes(hexes) + [QUOTE]), false) <==> WellFormedUtf16(Units(hexes))
  {
    SkipItems(before, Escapes(hexes) + [QUOTE], false);
    EscapesThenQuote(hexes);
  }
}
