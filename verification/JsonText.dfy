/** `parseStrict` from the bytes: the checks of the text, then the parser over its tokens. */
module JsonText {
  import opened Text
  import opened Utf8
  import opened StrictJson
  import opened JsonEquality
  import JsonEscapes

  /** `utf8.Valid`, rune by rune. */
  method CheckUtf8(data: bytes) returns (ok: bool)
    ensures ok <==> ValidUtf8(data)
  {
    hide WellFormed, DecodeRune;
    var offset := 0;
    assert data[0..] == data;
    while offset < |data|
      invariant 0 <= offset <= |data|
      invariant ValidUtf8(data) <==> ValidUtf8(data[offset..])
    {
      var rest := data[offset..];
      if !WellFormed(rest) {
        return false;
      }
      offset := offset + DecodeRune(rest).size;
      assert rest[DecodeRune(rest).size..] == data[offset..];
    }
    ok := true;
  }

  /** The text is UTF-8 and the escapes in its strings spell well-formed UTF-16. */
  ghost predicate ReadableText(data: bytes) {
    ValidUtf8(data) && JsonEscapes.Acceptable(data, false)
  }

  /** `parseStrict`; cutting the text into tokens is left to `encoding/json`. */
  method ParseText(data: bytes, tokens: bytes -> seq<Token>) returns (result: Result<Value>)
    ensures !ValidUtf8(data) ==> result == Err(NotUtf8)
    ensures ValidUtf8(data) && !ReadableText(data) ==> result == Err(LoneSurrogate)
    ensures ReadableText(data) ==>
              match ParseStrict(tokens(data))
              case Failed(error) => result == Err(error)
              case Parsed(d, _) => result == Ok(Meaning(d))
  {
    var valid := CheckUtf8(data);
    if !valid {
      return Err(NotUtf8);
    }
    var paired := JsonEscapes.ValidateUnicodeEscapes(data);
    if !paired {
      return Err(LoneSurrogate);
    }
    result := ParseTokens(tokens(data));
  }

  /** What `parseStrict` gives for a text. */
  ghost function Accepted(data: bytes, tokens: bytes -> seq<Token>): Option<Doc> {
    if !ReadableText(data) || ParseStrict(tokens(data)).Failed? then None else Some(ParseStrict(tokens(data)).value)
  }

  /** Exactly the readable texts whose tokens print a document with distinct names and bounded nesting are accepted. */
  lemma AcceptsExactlyStrictTexts(data: bytes, tokens: bytes -> seq<Token>, d: Doc)
    ensures Accepted(data, tokens) == Some(d) <==>
            ReadableText(data) && tokens(data) == Print(d) && Distinct(d) && NestsWithin(d, MAX_DEPTH)
  {
    hide Print, Distinct, NestsWithin, ReadableText;
    AcceptsExactlyStrictDocuments(tokens(data), d);
  }

  /** `Equal`: fails unless both texts are accepted, and then compares their values. */
  method Equal(left: bytes, right: bytes, tokens: bytes -> seq<Token>) returns (result: Result<bool>)
    ensures result.Ok? <==> Accepted(left, tokens).Some? && Accepted(right, tokens).Some?
    ensures result.Ok? ==> (result.value <==> Reordered(Accepted(left, tokens).value, Accepted(right, tokens).value))
  {
    hide ReadableText, Reordered, Meaning, EqualValues;
    var a := ParseText(left, tokens);
    if a.Err? {
      return Err(a.error);
    }
    var b := ParseText(right, tokens);
    if b.Err? {
      return Err(b.error);
    }
    EqualIffReordered(tokens(left), tokens(right));
    result := Ok(EqualValues(a.value, b.value));
  }
}
