/** Reading an id back: what `quotedId` writes, decoded by the rules of RFC 3986 and RFC 3629. */
module IdentityDecoding {
  import opened Wrappers
  import opened Identity

  // ----- percent decoding (section 2.1 of RFC 3986) -----

  /** The unreserved characters of section 2.3 of RFC 3986. */
  predicate StandsForItself(c: char) {
    'a' <= c <= 'z' || 'A' <= c <= 'Z' || '0' <= c <= '9' || c in {'-', '.', '_', '~'}
  }

  predicate IsHex(c: char) {
    '0' <= c <= '9' || 'A' <= c <= 'F'
  }

  function HexValue(c: char): (v: int)
    requires IsHex(c)
    ensures 0 <= v < 16
  {
    if c <= '9' then c as int - '0' as int else c as int - 'A' as int + 10
  }

  lemma HexDigits(v: int)
    requires 0 <= v < 16
    ensures IsHex(HEX[v]) && HexValue(HEX[v]) == v
  {
  }

  /** An unreserved byte is written as itself, any other as a percent sign and two digits, the higher first. */
  lemma ByteIsEncoded(b: Byte)
    ensures StandsForItself(b as char) ==> EncodeByte(b) == [b as char]
    ensures !StandsForItself(b as char) ==>
      && |EncodeByte(b)| == 3 && EncodeByte(b)[0] == '%'
      && IsHex(EncodeByte(b)[1]) && IsHex(EncodeByte(b)[2])
      && HexValue(EncodeByte(b)[1]) * 16 + HexValue(EncodeByte(b)[2]) == b
  {
    HexDigits(b / 16);
    HexDigits(b % 16);
  }

  function PercentDecode(s: string): Option<seq<Byte>> {
    if s == "" then Some([])
    else if s[0] != '%' then
      if s[0] as int >= 256 then None else Prepend(s[0] as int, PercentDecode(s[1..]))
    else if |s| < 3 || !IsHex(s[1]) || !IsHex(s[2]) then None
    else Prepend(HexValue(s[1]) * 16 + HexValue(s[2]), PercentDecode(s[3..]))
  }

  function Prepend<T>(x: T, rest: Option<seq<T>>): Option<seq<T>> {
    if rest.None? then None else Some([x] + rest.value)
  }

  lemma ByteIsDecoded(b: Byte, rest: string)
    ensures PercentDecode(EncodeByte(b) + rest) == Prepend(b, PercentDecode(rest))
  {
    ByteIsEncoded(b);
    var s := EncodeByte(b) + rest;
    assert s[|EncodeByte(b)|..] == rest;
    assert forall i | 0 <= i < |EncodeByte(b)| :: s[i] == EncodeByte(b)[i];
  }

  lemma {:induction false} PercentRoundTrip(bytes: seq<Byte>)
    ensures PercentDecode(EncodeBytes(bytes)) == Some(bytes)
  {
    if bytes != [] {
      PercentRoundTrip(bytes[1..]);
      ByteIsDecoded(bytes[0], EncodeBytes(bytes[1..]));
      assert bytes == [bytes[0]] + bytes[1..];
    }
  }

  // ----- UTF-8 decoding (section 3 of RFC 3629) -----

  predicate IsScalar(code: int) {
    0 <= code < 0xD800 || 0xE000 <= code < 0x110000
  }

  function Utf8Decode(bytes: seq<Byte>): Option<string> {
    if bytes == [] then Some("")
    else
      var size := Utf8Size(bytes[0]);
      if |bytes| < size || !IsScalar(Utf8Code(bytes[..size])) then None
      else Prepend(Utf8Code(bytes[..size]) as char, Utf8Decode(bytes[size..]))
  }

  lemma {:induction false} Utf8RoundTrip(text: string)
    ensures Utf8Decode(Utf8(text)) == Some(text)
  {
    if text != "" {
      Utf8RoundTrip(text[1..]);
      Utf8CharDecodes(text[0]);
      var bytes := Utf8(text);
      var n := |Utf8Char(text[0])|;
      assert bytes[..n] == Utf8Char(text[0]) && bytes[n..] == Utf8(text[1..]);
      assert bytes[0] == Utf8Char(text[0])[0];
      assert text == [text[0]] + text[1..];
    }
  }

  // ----- splitting at colons -----

  /** The pieces between colons, always at least one. */
  function Split(s: string): (pieces: seq<string>)
    ensures pieces != []
  {
    if s == "" then [""]
    else
      var rest := Split(s[1..]);
      if s[0] == ':' then [""] + rest else [[s[0]] + rest[0]] + rest[1..]
  }

  lemma {:induction false} SplitHead(head: string, rest: string)
    requires ':' !in head && (rest == "" || rest[0] == ':')
    ensures Split(head + rest) == [head] + if rest == "" then [] else Split(rest[1..])
  {
    if head == "" {
      assert head + rest == rest;
    } else {
      SplitHead(head[1..], rest);
      assert (head + rest)[1..] == head[1..] + rest;
      assert head == [head[0]] + head[1..];
    }
  }

  function Pieces(texts: seq<string>): seq<string> {
    seq(|texts|, i requires 0 <= i < |texts| => EncodeBytes(Utf8(texts[i])))
  }

  lemma {:induction false} SplitTail(head: string, texts: seq<string>)
    requires ':' !in head
    ensures Split(head + Tail(texts)) == [head] + Pieces(texts)
    decreases texts
  {
    SplitHead(head, Tail(texts));
    if texts != [] {
      TailStarts(texts);
      var first := EncodeBytes(Utf8(texts[0]));
      assert Encoded(texts[0])[1..] == first;
      SplitTail(first, texts[1..]);
      assert Pieces(texts) == [first] + Pieces(texts[1..]);
    }
  }

  // ----- the whole id -----

  function DecodePiece(piece: string): Option<string> {
    match PercentDecode(piece)
    case None => None
    case Some(bytes) => Utf8Decode(bytes)
  }

  function DecodePieces(pieces: seq<string>): Option<seq<string>> {
    if pieces == [] then Some([])
    else if DecodePiece(pieces[0]).None? then None
    else Prepend(DecodePiece(pieces[0]).value, DecodePieces(pieces[1..]))
  }

  /** The type and the identity texts of an id. */
  function ReadId(id: string): Option<(string, seq<string>)> {
    var pieces := Split(id);
    match DecodePieces(pieces[1..])
    case None => None
    case Some(texts) => Some((pieces[0], texts))
  }

  lemma {:induction false} PiecesRoundTrip(texts: seq<string>)
    ensures DecodePieces(Pieces(texts)) == Some(texts)
  {
    if texts != [] {
      PiecesRoundTrip(texts[1..]);
      PercentRoundTrip(Utf8(texts[0]));
      Utf8RoundTrip(texts[0]);
      assert Pieces(texts)[1..] == Pieces(texts[1..]);
      assert texts == [texts[0]] + texts[1..];
    }
  }

  /** Splitting an id at its colons and decoding each piece gives back the type and the texts. */
  lemma IdRoundTrip(semanticType: string, texts: seq<string>)
    requires ':' !in semanticType
    ensures ReadId(QuotedText(semanticType, texts)) == Some((semanticType, texts))
  {
    SplitTail(semanticType, texts);
    PiecesRoundTrip(texts);
    assert ([semanticType] + Pieces(texts))[1..] == Pieces(texts);
  }

  // ----- the text of a part -----

  function DecimalValue(s: string): int
    requires forall i | 0 <= i < |s| :: '0' <= s[i] <= '9'
  {
    if s == "" then 0 else DecimalValue(s[..|s| - 1]) * 10 + (s[|s| - 1] as int - '0' as int)
  }

  lemma {:induction false} DecimalRoundTrip(n: nat)
    ensures DecimalValue(Decimal(n)) == n
    ensures Decimal(n)[0] == '0' ==> n == 0
  {
    var s := Decimal(n);
    if n >= 10 {
      DecimalRoundTrip(n / 10);
      assert s[..|s| - 1] == Decimal(n / 10);
    } else {
      assert s[..0] == "";
    }
  }

  /** Which text stands for an identity value, and which values are refused. */
  lemma PartTexts(part: Part)
    ensures match part
      case TextPart(text) => PartText(part) == (if text == "" then Failure(EmptyIdentity) else Success(text))
      case FlagPart(flag) => PartText(part) == Success(if flag then "True" else "False")
      case WholePart(value) =>
        && PartText(part).Success?
        && (value >= 0 ==> PartText(part).value == Decimal(value))
        && (value < 0 ==> PartText(part).value == "-" + Decimal(-value))
      case FractionPart => PartText(part) == Failure(FloatingPointIdentity)
      case MissingPart => PartText(part) == Failure(EmptyIdentity)
  {
  }
}
