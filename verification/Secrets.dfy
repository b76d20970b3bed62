/** Secrets that must be stored as literal text: the wrapper and what reading back undoes. */
module Secrets {
  import opened JsText
  import opened Unicode
  import Base64Url

  // "__GOODVIBES_LITERAL_V1__"
  const PREFIX: JsString := [95, 95, 71, 79, 79, 68, 86, 73, 66, 69, 83, 95,
                             76, 73, 84, 69, 82, 65, 76, 95, 86, 49, 95, 95]
  // "goodvibes://secrets/"
  const GOODVIBES_SCHEME: JsString := [103, 111, 111, 100, 118, 105, 98, 101, 115, 58, 47, 47,
                                       115, 101, 99, 114, 101, 116, 115, 47]
  const HEAD: JsString := [123, 34, 118, 97, 108, 117, 101, 34, 58, 34] // {"value":"
  const QUOTE: CodeUnit := 34
  const BRACE: CodeUnit := 125

  // ----- JSON strings (section 7 of RFC 8259), over UTF-16 code units -----

  function HexDigit(n: int): CodeUnit
    requires 0 <= n < 16
  {
    if n < 10 then 48 + n else 97 + (n - 10)
  }

  function HexValue(u: CodeUnit): Option<int> {
    if 48 <= u <= 57 then Some(u - 48)
    else if 97 <= u <= 102 then Some(u - 87)
    else if 65 <= u <= 70 then Some(u - 55)
    else None
  }

  /** `\uXXXX`, in lower case. */
  function UnicodeEscape(u: CodeUnit): JsString {
    [BACKSLASH, 117, HexDigit(u / 4096), HexDigit(u / 256 % 16), HexDigit(u / 16 % 16), HexDigit(u % 16)]
  }

  function QuoteUnit(u: CodeUnit): JsString {
    if u == QUOTE || u == BACKSLASH then [BACKSLASH, u]
    else if u == 8 then [BACKSLASH, 98]
    else if u == 9 then [BACKSLASH, 116]
    else if u == 10 then [BACKSLASH, 110]
    else if u == 12 then [BACKSLASH, 102]
    else if u == 13 then [BACKSLASH, 114]
    else if u < 32 || High(u) || Low(u) then UnicodeEscape(u)
    else [u]
  }

  /** Hexadecimal digits are written in lower case and read in either. */
  lemma HexSpells(n: int)
    requires 0 <= n < 16
    ensures HexDigit(n) == Ascii("0123456789abcdef")[n]
    ensures HexValue(Ascii("0123456789abcdef")[n]) == Some(n) && HexValue(Ascii("0123456789ABCDEF")[n]) == Some(n)
  {
  }

  /** A unit is escaped only where JSON needs it, and as shortly as it can be. */
  lemma QuoteOnlyNeeded(u: CodeUnit)
    ensures QuoteUnit(u) == [u] <==> u >= 32 && u != QUOTE && u != BACKSLASH && !High(u) && !Low(u)
    ensures |QuoteUnit(u)| == 2 <==> u in [QUOTE, BACKSLASH, 8, 9, 10, 12, 13]
  {
  }

  /** The body of `JSON.stringify` of a string: surrogate pairs as they are, lone surrogates escaped. */
  function Quote(s: JsString): JsString {
    if s == [] then []
    else if High(s[0]) && |s| > 1 && Low(s[1]) then [s[0], s[1]] + Quote(s[2..])
    else QuoteUnit(s[0]) + Quote(s[1..])
  }

  datatype Parsed = Parsed(value: JsString, rest: JsString) | Malformed

  /** The unit an escape stands for and how long the escape is; 0 for a malformed one. */
  function ReadEscape(s: JsString): (r: (CodeUnit, nat))
    ensures r.1 <= |s|
  {
    if |s| < 2 then (0, 0)
    else if s[1] == QUOTE || s[1] == BACKSLASH || s[1] == 47 then (s[1], 2)
    else if s[1] == 98 then (8, 2)
    else if s[1] == 116 then (9, 2)
    else if s[1] == 110 then (10, 2)
    else if s[1] == 102 then (12, 2)
    else if s[1] == 114 then (13, 2)
    else if s[1] == 117 && |s| >= 6 && HexValue(s[2]).Some? && HexValue(s[3]).Some?
            && HexValue(s[4]).Some? && HexValue(s[5]).Some? then
      (HexValue(s[2]).value * 4096 + HexValue(s[3]).value * 256 + HexValue(s[4]).value * 16 + HexValue(s[5]).value, 6)
    else (0, 0)
  }

  /** A JSON string after its opening quote, up to and including the closing one. */
  function ReadString(s: JsString): Parsed
    decreases |s|
  {
    if s == [] then Malformed
    else if s[0] == QUOTE then Parsed([], s[1..])
    else if s[0] == BACKSLASH then
      var (u, n) := ReadEscape(s);
      if n == 0 then Malformed else Prepend([u], ReadString(s[n..]))
    else if s[0] < 32 then Malformed
    else Prepend([s[0]], ReadString(s[1..]))
  }

  function Prepend(s: JsString, p: Parsed): Parsed {
    match p
    case Malformed => Malformed
    case Parsed(value, rest) => Parsed(s + value, rest)
  }

  lemma HexRead(n: int)
    requires 0 <= n < 16
    ensures HexValue(HexDigit(n)) == Some(n)
  {
  }

  lemma ReadUnicodeEscape(u: CodeUnit, rest: JsString)
    ensures ReadEscape(UnicodeEscape(u) + rest) == (u, 6)
  {
    HexRead(u / 4096);
    HexRead(u / 256 % 16);
    HexRead(u / 16 % 16);
    HexRead(u % 16);
    hide HexDigit, HexValue;
    var q := UnicodeEscape(u);
    var s := q + rest;
    assert s[1] == 117 && s[2] == q[2] && s[3] == q[3] && s[4] == q[4] && s[5] == q[5];
    HexSplit(u);
  }

  lemma HexSplit(u: int)
    requires 0 <= u < 0x10000
    ensures u == u / 4096 * 4096 + u / 256 % 16 * 256 + u / 16 % 16 * 16 + u % 16
  {
    assert u / 256 == u / 16 / 16 && u / 4096 == u / 16 / 16 / 16;
  }

  lemma ReadQuotedUnit(u: CodeUnit, rest: JsString)
    ensures ReadString(QuoteUnit(u) + rest) == Prepend([u], ReadString(rest))
  {
    var q := QuoteUnit(u);
    var s := q + rest;
    assert s[|q|..] == rest && s[0] == q[0];
    if |q| == 6 {
      ReadUnicodeEscape(u, rest);
      hide UnicodeEscape;
    } else if |q| == 2 {
      assert s[1] == q[1];
      assert ReadEscape(s) == (u, 2);
    }
  }

  lemma ReadPair(a: CodeUnit, b: CodeUnit, rest: JsString)
    requires High(a) && Low(b)
    ensures ReadString([a, b] + rest) == Prepend([a, b], ReadString(rest))
  {
    var s := [a, b] + rest;
    assert s[1..] == [b] + rest && ([b] + rest)[1..] == rest;
    if ReadString(rest).Parsed? {
      assert [a] + ([b] + ReadString(rest).value) == [a, b] + ReadString(rest).value;
    }
  }

  lemma ReadClosing(tail: JsString)
    ensures ReadString([QUOTE] + tail) == Parsed([], tail)
  {
  }

  lemma ReadAhead(q: JsString, value: JsString, rest: JsString, s: JsString, tail: JsString)
    requires ReadString(q + rest) == Prepend(value, ReadString(rest)) && ReadString(rest) == Parsed(s, tail)
    ensures ReadString(q + rest) == Parsed(value + s, tail)
  {
  }

  lemma Regroup(a: JsString, b: JsString, c: JsString, d: JsString)
    ensures a + b + c + d == a + (b + c + d)
  {
  }

  lemma QuotePairFirst(s: JsString, tail: JsString)
    requires |s| > 1 && High(s[0]) && Low(s[1])
    ensures Quote(s) + [QUOTE] + tail == [s[0], s[1]] + (Quote(s[2..]) + [QUOTE] + tail)
  {
    Regroup([s[0], s[1]], Quote(s[2..]), [QUOTE], tail);
  }

  lemma QuoteUnitFirst(s: JsString, tail: JsString)
    requires s != [] && !(High(s[0]) && |s| > 1 && Low(s[1]))
    ensures Quote(s) + [QUOTE] + tail == QuoteUnit(s[0]) + (Quote(s[1..]) + [QUOTE] + tail)
  {
    hide QuoteUnit;
    Regroup(QuoteUnit(s[0]), Quote(s[1..]), [QUOTE], tail);
  }

  /** Every string, lone surrogates included, is read back from its JSON form. */
  lemma {:induction false} ReadQuoted(s: JsString, tail: JsString)
    ensures ReadString(Quote(s) + [QUOTE] + tail) == Parsed(s, tail)
  {
    if s == [] {
      assert Quote(s) + [QUOTE] + tail == [QUOTE] + tail;
      ReadClosing(tail);
    } else if High(s[0]) && |s| > 1 && Low(s[1]) {
      hide QuoteUnit, ReadString, Prepend, Quote;
      ReadQuoted(s[2..], tail);
      var rest := Quote(s[2..]) + [QUOTE] + tail;
      QuotePairFirst(s, tail);
      ReadPair(s[0], s[1], rest);
      ReadAhead([s[0], s[1]], [s[0], s[1]], rest, s[2..], tail);
      assert s == [s[0], s[1]] + s[2..];
    } else {
      hide QuoteUnit, ReadString, Prepend, Quote;
      ReadQuoted(s[1..], tail);
      var rest := Quote(s[1..]) + [QUOTE] + tail;
      QuoteUnitFirst(s, tail);
      ReadQuotedUnit(s[0], rest);
      ReadAhead(QuoteUnit(s[0]), [s[0]], rest, s[1..], tail);
      assert s == [s[0]] + s[1..];
    }
  }

  lemma {:induction false} PlainWellFormed(p: JsString, s: JsString)
    requires WellFormed(s) && forall u | u in p :: !High(u) && !Low(u)
    ensures WellFormed(p + s)
  {
    if p == [] {
      assert p + s == s;
    } else {
      PlainWellFormed(p[1..], s);
      assert (p + s)[1..] == p[1..] + s;
    }
  }

  /** JSON text never holds a lone surrogate, so it survives UTF-8. */
  lemma {:induction false} QuoteWellFormed(s: JsString, tail: JsString)
    requires WellFormed(tail)
    ensures WellFormed(Quote(s) + tail)
  {
    hide QuoteUnit;
    if s == [] {
      assert Quote(s) + tail == tail;
    } else if High(s[0]) && |s| > 1 && Low(s[1]) {
      QuoteWellFormed(s[2..], tail);
      assert Quote(s) + tail == [s[0], s[1]] + (Quote(s[2..]) + tail);
      PairWellFormed(s[0], s[1], Quote(s[2..]) + tail);
    } else {
      QuoteWellFormed(s[1..], tail);
      assert Quote(s) + tail == QuoteUnit(s[0]) + (Quote(s[1..]) + tail);
      QuotedUnitPlain(s[0]);
      PlainWellFormed(QuoteUnit(s[0]), Quote(s[1..]) + tail);
    }
  }

  lemma PairWellFormed(a: CodeUnit, b: CodeUnit, s: JsString)
    requires High(a) && Low(b) && WellFormed(s)
    ensures WellFormed([a, b] + s)
  {
  }

  lemma QuotedUnitPlain(u: CodeUnit)
    ensures forall x | x in QuoteUnit(u) :: !High(x) && !Low(x)
  {
  }

  // ----- The literal wrapper -----

  /** `JSON.stringify({ value })` */
  function Stringify(value: JsString): JsString {
    HEAD + (Quote(value) + [QUOTE, BRACE])
  }

  /** The string under `value` in a JSON text: texts of the form above are read here, every other text
      by `other`. */
  function ReadValue(text: JsString, other: JsString -> Option<JsString>): Option<JsString> {
    if HEAD <= text && ReadString(text[|HEAD|..]).Parsed? && ReadString(text[|HEAD|..]).rest == [BRACE]
    then Some(ReadString(text[|HEAD|..]).value)
    else other(text)
  }

  lemma ReadStringified(value: JsString, other: JsString -> Option<JsString>)
    ensures ReadValue(Stringify(value), other) == Some(value)
    ensures WellFormed(Stringify(value))
  {
    var body := Quote(value) + [QUOTE, BRACE];
    assert Stringify(value)[|HEAD|..] == body;
    assert body == Quote(value) + [QUOTE] + [BRACE];
    ReadQuoted(value, [BRACE]);
    assert [QUOTE, BRACE][1..] == [BRACE] && [BRACE][1..] == [];
    assert WellFormed([BRACE]) && WellFormed([QUOTE, BRACE]);
    QuoteWellFormed(value, [QUOTE, BRACE]);
    PlainWellFormed(HEAD, body);
  }

  function EncodeLiteral(value: JsString): JsString {
    PREFIX + Base64Url.Encode(ToBytes(Stringify(value)))
  }

  function DecodeLiteral(value: JsString, other: JsString -> Option<JsString>): Option<JsString> {
    if !(PREFIX <= value) then None
    else ReadValue(FromBytes(Base64Url.Decode(value[|PREFIX|..])), other)
  }

  /** Unwrapping undoes wrapping, for every string. */
  lemma DecodeEncodeLiteral(value: JsString, other: JsString -> Option<JsString>)
    ensures DecodeLiteral(EncodeLiteral(value), other) == Some(value)
  {
    var bytes := ToBytes(Stringify(value));
    assert EncodeLiteral(value)[|PREFIX|..] == Base64Url.Encode(bytes);
    assert Base64Url.Encode(bytes) + [] == Base64Url.Encode(bytes);
    Base64Url.DecodeEncode(bytes, []);
    ReadStringified(value, other);
    FromToBytes(Stringify(value));
  }

  // ----- The manager over the platform's store -----

  /** The platform's part: which inputs it takes for a secret reference, what a reference resolves to, and what
      its store answers for a key the environment sets. */
  datatype Platform = Platform(isRef: JsString -> bool, resolve: JsString -> Option<JsString>,
                               fromEnvironment: (string, JsString) -> Option<JsString>)

  predicate IsGoodVibesRef(p: Platform, value: JsString) {
    GOODVIBES_SCHEME <= Trim(value) && p.isRef(Trim(value))
  }

  predicate ShouldStoreAsLiteral(p: Platform, value: JsString) {
    PREFIX <= value || (p.isRef(value) && !IsGoodVibesRef(p, value))
  }

  /** The platform store's own `get`: a stored reference is resolved, any other text is returned. */
  function BaseGet(p: Platform, stored: JsString): Option<JsString> {
    if p.isRef(stored) then p.resolve(stored) else Some(stored)
  }

  class SecretsManager {
    const platform: Platform
    const environment: map<string, JsString>
    const other: JsString -> Option<JsString>
    var stored: map<string, JsString>

    constructor (platform: Platform, environment: map<string, JsString>, other: JsString -> Option<JsString>)
      ensures this.platform == platform && this.environment == environment && this.other == other && stored == map[]
    {
      this.platform, this.environment, this.other, stored := platform, environment, other, map[];
    }

    method Set(key: string, value: JsString)
      modifies this
      ensures stored == old(stored)[key := ToStore(platform, value)]
      ensures stored[key] ==
              if PREFIX <= value
                 || (platform.isRef(value) && !(GOODVIBES_SCHEME <= Trim(value) && platform.isRef(Trim(value))))
              then EncodeLiteral(value) else value
    {
      stored := stored[key := if ShouldStoreAsLiteral(platform, value) then EncodeLiteral(value) else value];
    }

    /** The environment is consulted first, for a value that has to be read as a literal. */
    method Get(key: string) returns (r: Option<JsString>)
      ensures key in environment && ShouldStoreAsLiteral(platform, environment[key]) ==>
                r == Some(Unwrap(environment[key], other))
      ensures key in environment && !ShouldStoreAsLiteral(platform, environment[key]) ==>
                match platform.fromEnvironment(key, environment[key])
                case None => r == None
                case Some(v) => r == Some(Unwrap(v, other))
      ensures key !in environment ==>
                r == if key in stored then ReadBack(platform, stored[key], other) else None
    {
      if key in environment && ShouldStoreAsLiteral(platform, environment[key]) {
        return Some(Unwrap(environment[key], other));
      }
      var value := if key in environment then platform.fromEnvironment(key, environment[key])
                   else if key in stored then BaseGet(platform, stored[key])
                   else None;
      if value.None? {
        return None;
      }
      return Some(Unwrap(value.value, other));
    }
  }

  function ToStore(p: Platform, value: JsString): JsString {
    if ShouldStoreAsLiteral(p, value) then EncodeLiteral(value) else value
  }

  function Unwrap(value: JsString, other: JsString -> Option<JsString>): JsString {
    match DecodeLiteral(value, other)
    case Some(v) => v
    case None => value
  }

  function ReadBack(p: Platform, stored: JsString, other: JsString -> Option<JsString>): Option<JsString> {
    match BaseGet(p, stored)
    case None => None
    case Some(v) => Some(Unwrap(v, other))
  }

  /** Every string that is not a GoodVibes reference is read back as it was set: plain text, text that
      already carries the wrapper's prefix, and text the platform would take for a foreign reference.
      The platform must not take a wrapped literal for a reference. */
  lemma GetAfterSet(p: Platform, value: JsString, other: JsString -> Option<JsString>)
    requires !IsGoodVibesRef(p, value) && !p.isRef(EncodeLiteral(value))
    ensures ReadBack(p, ToStore(p, value), other) == Some(value)
  {
    DecodeEncodeLiteral(value, other);
  }

  /** What `get` gives after `set`, for every string: what was set, except that a GoodVibes reference is resolved
      by the platform, whatever it resolves to. */
  lemma GetAfterSetExactly(p: Platform, value: JsString, other: JsString -> Option<JsString>)
    requires !p.isRef(EncodeLiteral(value))
    ensures var reference := GOODVIBES_SCHEME <= Trim(value) && p.isRef(Trim(value)) && p.isRef(value)
                             && !(PREFIX <= value);
            && (!reference ==> ReadBack(p, ToStore(p, value), other) == Some(value))
            && (reference ==> ToStore(p, value) == value)
            && (reference && p.resolve(value).None? ==> ReadBack(p, ToStore(p, value), other) == None)
            && (reference && p.resolve(value).Some? && !(PREFIX <= p.resolve(value).value) ==>
                  ReadBack(p, ToStore(p, value), other) == p.resolve(value))
  {
    DecodeEncodeLiteral(value, other);
  }

  lemma NamesSpell()
    ensures PREFIX == Ascii("__GOODVIBES_LITERAL_V1__") && GOODVIBES_SCHEME == Ascii("goodvibes://secrets/")
    ensures HEAD == Ascii("{\"value\":\"") && [QUOTE, BRACE] == Ascii("\"}")
  {
  }
}
