/**
 Graph identities: `quotedId` and `edgeId` of SemanticRegistry.java, and the coalescer's key. A string
 is a sequence of Unicode scalar values, so the unpaired surrogates the source rejects do not arise.
 */
module Identity {
  import opened Wrappers
  import opened LifecyclePolicy

  type Byte = b: int | 0 <= b < 256

  // ----- UTF-8 (section 3 of RFC 3629) -----

  function Utf8Char(c: char): (bytes: seq<Byte>)
    ensures |bytes| > 0
  {
    var u := c as int;
    if u < 0x80 then [u]
    else if u < 0x800 then [0xC0 + u / 64, 0x80 + u % 64]
    else if u < 0x10000 then [0xE0 + u / 4096, 0x80 + u / 64 % 64, 0x80 + u % 64]
    else [0xF0 + u / 262144, 0x80 + u / 4096 % 64, 0x80 + u / 64 % 64, 0x80 + u % 64]
  }

  function Utf8(text: string): seq<Byte> {
    if text == "" then [] else Utf8Char(text[0]) + Utf8(text[1..])
  }

  /** How many bytes the character starting with this byte has, and its value. */
  function Utf8Size(first: int): nat {
    if first < 0x80 then 1 else if first < 0xE0 then 2 else if first < 0xF0 then 3 else 4
  }

  function Utf8Code(bytes: seq<int>): int
    requires |bytes| > 0 && |bytes| == Utf8Size(bytes[0])
  {
    if |bytes| == 1 then bytes[0]
    else if |bytes| == 2 then (bytes[0] - 0xC0) * 64 + (bytes[1] - 0x80)
    else if |bytes| == 3 then (bytes[0] - 0xE0) * 4096 + (bytes[1] - 0x80) * 64 + (bytes[2] - 0x80)
    else (bytes[0] - 0xF0) * 262144 + (bytes[1] - 0x80) * 4096 + (bytes[2] - 0x80) * 64 + (bytes[3] - 0x80)
  }

  lemma Utf8CharDecodes(c: char)
    ensures var bytes := Utf8Char(c); |bytes| == Utf8Size(bytes[0]) && Utf8Code(bytes) == c as int
  {
    var u := c as int;
    assert u == u / 64 * 64 + u % 64 && u / 64 == u / 4096 * 64 + u / 64 % 64;
    assert u / 4096 == u / 262144 * 64 + u / 4096 % 64;
  }

  lemma Utf8CharInjective(a: char, x: seq<Byte>, b: char, y: seq<Byte>)
    requires Utf8Char(a) + x == Utf8Char(b) + y
    ensures a == b && x == y
  {
    Utf8CharDecodes(a);
    Utf8CharDecodes(b);
    EqualHeads(Utf8Char(a), x, Utf8Char(b), y);
  }

  lemma EqualHeads<T>(a: seq<T>, x: seq<T>, b: seq<T>, y: seq<T>)
    requires a != [] && b != [] && a + x == b + y
    ensures a[0] == b[0]
    ensures |a| == |b| ==> a == b && x == y
  {
    assert (a + x)[0] == a[0] && (b + y)[0] == b[0];
    if |a| == |b| {
      assert a == (a + x)[..|a|] && b == (b + y)[..|a|];
      assert x == (a + x)[|a|..] && y == (b + y)[|a|..];
    }
  }

  lemma {:induction false} Utf8Injective(a: string, b: string)
    requires Utf8(a) == Utf8(b)
    ensures a == b
  {
    if a != "" && b != "" {
      Utf8CharInjective(a[0], Utf8(a[1..]), b[0], Utf8(b[1..]));
      Utf8Injective(a[1..], b[1..]);
      assert a == [a[0]] + a[1..] && b == [b[0]] + b[1..];
    }
  }

  // ----- percent encoding (sections 2.1 and 2.3 of RFC 3986) -----

  predicate Unreserved(b: Byte) {
    'a' as int <= b <= 'z' as int || 'A' as int <= b <= 'Z' as int || '0' as int <= b <= '9' as int
    || b == '-' as int || b == '.' as int || b == '_' as int || b == '~' as int
  }

  const HEX := "0123456789ABCDEF"

  function EncodeByte(b: Byte): (s: string)
    ensures s != "" && ':' !in s
  {
    if Unreserved(b) then [b as char] else ['%', HEX[b / 16], HEX[b % 16]]
  }

  function EncodeBytes(bytes: seq<Byte>): (s: string)
    ensures ':' !in s
  {
    if bytes == [] then "" else EncodeByte(bytes[0]) + EncodeBytes(bytes[1..])
  }

  lemma HexInjective(a: int, b: int)
    requires 0 <= a < 16 && 0 <= b < 16 && HEX[a] == HEX[b]
    ensures a == b
  {
  }

  lemma EncodeByteInjective(a: Byte, x: string, b: Byte, y: string)
    requires EncodeByte(a) + x == EncodeByte(b) + y
    ensures a == b && x == y
  {
    EqualHeads(EncodeByte(a), x, EncodeByte(b), y);
    assert |EncodeByte(a)| == |EncodeByte(b)|;
    if !Unreserved(a) {
      assert EncodeByte(a)[1] == EncodeByte(b)[1] && EncodeByte(a)[2] == EncodeByte(b)[2];
      HexInjective(a / 16, b / 16);
      HexInjective(a % 16, b % 16);
    }
  }

  lemma {:induction false} EncodeBytesInjective(a: seq<Byte>, b: seq<Byte>)
    requires EncodeBytes(a) == EncodeBytes(b)
    ensures a == b
  {
    if a != [] && b != [] {
      EncodeByteInjective(a[0], EncodeBytes(a[1..]), b[0], EncodeBytes(b[1..]));
      EncodeBytesInjective(a[1..], b[1..]);
      assert a == [a[0]] + a[1..] && b == [b[0]] + b[1..];
    }
  }

  // ----- decimal text -----

  function Decimal(n: nat): (s: string)
    ensures s != "" && forall i | 0 <= i < |s| :: '0' <= s[i] <= '9'
  {
    if n < 10 then [('0' as int + n) as char] else Decimal(n / 10) + [('0' as int + n % 10) as char]
  }

  lemma {:induction false} DecimalInjective(a: nat, b: nat)
    requires Decimal(a) == Decimal(b)
    ensures a == b
    decreases a
  {
    var p, q := Decimal(a), Decimal(b);
    assert p[|p| - 1] == q[|q| - 1];
    if a >= 10 && b >= 10 {
      assert Decimal(a / 10) == p[..|p| - 1] == q[..|q| - 1] == Decimal(b / 10);
      DecimalInjective(a / 10, b / 10);
    }
  }

  /** `String.valueOf` of an integer. */
  function IntegerText(i: int): string {
    if i < 0 then "-" + Decimal(-i) else Decimal(i)
  }

  // ----- quotedId -----

  /** An identity value as the registry hands it over; fractions and nulls are refused. */
  datatype Part = TextPart(text: string) | FlagPart(flag: bool) | WholePart(value: int) | FractionPart | MissingPart

  datatype IdentityError = EmptyIdentity | FloatingPointIdentity

  function PartText(part: Part): Result<string, IdentityError> {
    match part
    case FractionPart => Failure(FloatingPointIdentity)
    case MissingPart => Failure(EmptyIdentity)
    case TextPart(text) => if text == "" then Failure(EmptyIdentity) else Success(text)
    case FlagPart(flag) => Success(if flag then "True" else "False")
    case WholePart(value) => Success(IntegerText(value))
  }

  /** One identity text in the id: a colon and the percent-encoded bytes. */
  function Encoded(text: string): (s: string)
    ensures s != "" && s[0] == ':' && ':' !in s[1..]
  {
    ":" + EncodeBytes(Utf8(text))
  }

  function Tail(texts: seq<string>): (s: string)
    ensures s == "" || s[0] == ':'
  {
    if texts == [] then "" else Encoded(texts[0]) + Tail(texts[1..])
  }

  function QuotedText(semanticType: string, texts: seq<string>): string {
    semanticType + Tail(texts)
  }

  lemma {:induction false} TailAppend(texts: seq<string>, text: string)
    ensures Tail(texts + [text]) == Tail(texts) + Encoded(text)
  {
    var all := texts + [text];
    if texts == [] {
      assert all == [text] && all[1..] == [];
    } else {
      TailAppend(texts[1..], text);
      assert all[1..] == texts[1..] + [text];
      Associative(Encoded(texts[0]), Tail(texts[1..]), Encoded(text));
    }
  }

  lemma Associative(a: string, b: string, c: string)
    ensures (a + b) + c == a + (b + c)
  {
  }

  lemma QuotedTextAppend(semanticType: string, texts: seq<string>, text: string)
    ensures QuotedText(semanticType, texts + [text]) == QuotedText(semanticType, texts) + Encoded(text)
  {
    TailAppend(texts, text);
    Associative(semanticType, Tail(texts), Encoded(text));
  }

  /** The byte loop of `quotedId`. */
  method AppendEncoded(prefix: string, text: string) returns (id: string)
    ensures id == prefix + Encoded(text)
  {
    var bytes := Utf8(text);
    id := prefix + ":";
    for i := 0 to |bytes|
      invariant id + EncodeBytes(bytes[i..]) == prefix + Encoded(text)
    {
      assert bytes[i..][1..] == bytes[i + 1..];
      Associative(id, EncodeByte(bytes[i]), EncodeBytes(bytes[i + 1..]));
      id := id + EncodeByte(bytes[i]);
    }
  }

  predicate AllText(parts: seq<Part>) {
    forall i | 0 <= i < |parts| :: PartText(parts[i]).Success?
  }

  function Texts(parts: seq<Part>): seq<string>
    requires AllText(parts)
  {
    seq(|parts|, i requires 0 <= i < |parts| => PartText(parts[i]).value)
  }

  lemma TextsAppend(parts: seq<Part>, part: Part)
    requires AllText(parts) && PartText(part).Success?
    ensures AllText(parts + [part]) && Texts(parts + [part]) == Texts(parts) + [PartText(part).value]
  {
  }

  method QuotedId(semanticType: string, parts: seq<Part>) returns (r: Result<string, IdentityError>)
    ensures r.Success? <==> semanticType != "" && parts != [] && AllText(parts)
    ensures r.Success? ==> r.value == QuotedText(semanticType, Texts(parts))
    ensures r.Failure? && semanticType != "" && parts != [] ==>
      exists i | 0 <= i < |parts| :: PartText(parts[i]) == Failure(r.error) && AllText(parts[..i])
  {
    if semanticType == "" || parts == [] { return Failure(EmptyIdentity); }
    var id := semanticType;
    for i := 0 to |parts|
      invariant AllText(parts[..i])
      invariant id == QuotedText(semanticType, Texts(parts[..i]))
    {
      var text := PartText(parts[i]);
      if text.Failure? { return Failure(text.error); }
      id := AppendEncoded(id, text.value);
      QuotedTextAppend(semanticType, Texts(parts[..i]), text.value);
      TextsAppend(parts[..i], parts[i]);
      assert parts[..i + 1] == parts[..i] + [parts[i]];
    }
    assert parts[..|parts|] == parts;
    return Success(id);
  }

  // ----- uniqueness -----

  /** The first colon of a colon-free head and what follows it. */
  lemma {:induction false} FirstColon(head: string, rest: string)
    requires ':' !in head && (rest == "" || rest[0] == ':')
    ensures IndexOf(head + rest, ':') == if rest == "" then -1 else |head|
  {
    if head == "" { assert head + rest == rest; }
    else {
      assert (head + rest)[1..] == head[1..] + rest;
      FirstColon(head[1..], rest);
    }
  }

  /** Where two strings agree, colon-free heads followed by nothing or a colon are the same. */
  lemma HeadUnique(a: string, x: string, b: string, y: string)
    requires ':' !in a && ':' !in b && a + x == b + y
    requires (x == "" || x[0] == ':') && (y == "" || y[0] == ':')
    ensures a == b && x == y
  {
    FirstColon(a, x);
    FirstColon(b, y);
    assert |a + x| == |a| + |x| && |b + y| == |b| + |y|;
    assert |a| == |b|;
    assert a == (a + x)[..|a|] && b == (b + y)[..|a|];
    assert x == (a + x)[|a|..] && y == (b + y)[|a|..];
  }

  lemma TypeOfHead(head: string, rest: string)
    requires head != "" && ':' !in head && rest != "" && rest[0] == ':'
    ensures EntityType(head + rest) == Some(head)
  {
    FirstColon(head, rest);
    assert (head + rest)[..|head|] == head;
  }

  lemma {:induction false} TailInjective(a: seq<string>, b: seq<string>)
    requires Tail(a) == Tail(b)
    ensures a == b
  {
    if a != [] && b != [] {
      TailStarts(a);
      TailStarts(b);
      HeadUnique(Encoded(a[0])[1..], Tail(a[1..]), Encoded(b[0])[1..], Tail(b[1..]));
      EncodeBytesInjective(Utf8(a[0]), Utf8(b[0]));
      Utf8Injective(a[0], b[0]);
      TailInjective(a[1..], b[1..]);
      assert a == [a[0]] + a[1..] && b == [b[0]] + b[1..];
    }
  }

  lemma TailStarts(texts: seq<string>)
    requires texts != []
    ensures Tail(texts) != "" && Tail(texts)[0] == ':'
    ensures Tail(texts)[1..] == Encoded(texts[0])[1..] + Tail(texts[1..])
  {
  }

  /** The encoding is injective on the type and the list of texts, for types without a colon. */
  lemma QuotedTextInjective(t: string, a: seq<string>, u: string, b: seq<string>)
    requires ':' !in t && ':' !in u && QuotedText(t, a) == QuotedText(u, b)
    ensures t == u && a == b
  {
    HeadUnique(t, Tail(a), u, Tail(b));
    TailInjective(a, b);
  }

  /** The prefix before the first colon is exactly the type. */
  lemma QuotedTextType(t: string, texts: seq<string>)
    requires t != "" && ':' !in t && texts != []
    ensures EntityType(QuotedText(t, texts)) == Some(t)
  {
    TailStarts(texts);
    TypeOfHead(t, Tail(texts));
  }

  // ----- edge ids and coalescer keys -----

  /** `String.length()`: UTF-16 code units. */
  function Utf16Length(s: string): nat {
    if s == "" then 0 else (if s[0] as int < 0x10000 then 1 else 2) + Utf16Length(s[1..])
  }

  lemma {:induction false} Utf16LengthAppend(a: string, b: string)
    ensures Utf16Length(a + b) == Utf16Length(a) + Utf16Length(b)
  {
    if a == "" { assert a + b == b; }
    else { Utf16LengthAppend(a[1..], b); assert (a + b)[1..] == a[1..] + b; }
  }

  /** The length-prefixed pair of the coalescer's key. */
  function Key(elementId: string, contributorId: string): string {
    Decimal(Utf16Length(elementId)) + ":" + elementId + contributorId
  }

  lemma {:induction false} Utf16LengthPositive(s: string)
    ensures s != "" ==> Utf16Length(s) > 0
  {
  }

  lemma SplitUnique(a: string, x: string, b: string, y: string)
    requires a + x == b + y && Utf16Length(a) == Utf16Length(b)
    ensures a == b && x == y
  {
    var p := a + x;
    if |a| <= |b| {
      assert b == a + b[|a|..] by { assert a == p[..|a|] && b == p[..|b|]; }
      Utf16LengthAppend(a, b[|a|..]);
      Utf16LengthPositive(b[|a|..]);
    } else {
      assert a == b + a[|b|..] by { assert a == p[..|a|] && b == p[..|b|]; }
      Utf16LengthAppend(b, a[|b|..]);
      Utf16LengthPositive(a[|b|..]);
    }
    assert x == p[|a|..] && y == (b + y)[|b|..];
  }

  /** No two (element, contributor) pairs share a key, whatever their ids contain. */
  lemma KeyInjective(e: string, c: string, f: string, d: string)
    requires Key(e, c) == Key(f, d)
    ensures e == f && c == d
  {
    var m, n := Decimal(Utf16Length(e)), Decimal(Utf16Length(f));
    assert Key(e, c) == m + (":" + (e + c)) && Key(f, d) == n + (":" + (f + d));
    HeadUnique(m, ":" + (e + c), n, ":" + (f + d));
    DecimalInjective(Utf16Length(e), Utf16Length(f));
    assert e + c == (":" + (e + c))[1..] && f + d == (":" + (f + d))[1..];
    SplitUnique(e, c, f, d);
  }

  /**
   "edge:" and a digest of (source, target, type). SHA-256 over the JSON of the three is taken as
   injective; an injective text of them stands in for it.
   */
  function EdgeId(source: string, semanticType: string, target: string): string {
    "edge:" + Key(source, Key(target, semanticType))
  }

  lemma EdgeIdInjective(s: string, t: string, u: string, s': string, t': string, u': string)
    requires EdgeId(s, t, u) == EdgeId(s', t', u')
    ensures s == s' && t == t' && u == u'
  {
    assert Key(s, Key(u, t)) == EdgeId(s, t, u)[5..] && Key(s', Key(u', t')) == EdgeId(s', t', u')[5..];
    KeyInjective(s, Key(u, t), s', Key(u', t'));
    KeyInjective(u, t, u', t');
  }

  lemma EdgeIdType(source: string, semanticType: string, target: string)
    ensures EntityType(EdgeId(source, semanticType, target)) == Some("edge")
  {
    var rest := ":" + Key(source, Key(target, semanticType));
    assert EdgeId(source, semanticType, target) == "edge" + rest;
    TypeOfHead("edge", rest);
  }
}
