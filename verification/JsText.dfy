/** Strings as the runtime sees them: UTF-16 code units, decimal numerals, UTF-8 bytes and base64url. */
module JsText {

  type CodeUnit = x: int | 0 <= x < 0x10000
  type JsString = seq<CodeUnit>
  type Byte = x: int | 0 <= x < 0x100

  datatype Option<+T> = None | Some(value: T)

  /** A JavaScript number: infinities and NaN are not finite. */
  datatype Number = Finite(value: real) | NotFinite

  /** A literal of this module's own texts, all of them ASCII. */
  function Ascii(s: string): (r: JsString)
    ensures |r| == |s| && forall i | 0 <= i < |s| && s[i] as int < 128 :: r[i] == s[i] as int
  {
    seq(|s|, i requires 0 <= i < |s| => s[i] as int % 128)
  }

  /** Position of the first `u`, or the length when there is none. */
  function IndexOf(s: JsString, u: CodeUnit): (k: nat)
    ensures k <= |s| && u !in s[..k] && (k < |s| ==> s[k] == u)
  {
    if s == [] then 0 else if s[0] == u then 0 else
      var k := IndexOf(s[1..], u);
      assert s[..1 + k] == [s[0]] + s[1..][..k];
      1 + k
  }

  lemma IndexOfFirst(s: JsString, u: CodeUnit, t: JsString)
    requires u !in s
    ensures IndexOf(s + [u] + t, u) == |s|
  {
    var whole := s + [u] + t;
    var k := IndexOf(whole, u);
    assert whole[|s|] == u;
    assert forall i | 0 <= i < |s| :: whole[i] == s[i];
    assert forall i | 0 <= i < k :: whole[i] in whole[..k];
  }

  const NEWLINE: CodeUnit := 10
  const BACKSLASH: CodeUnit := 92

  predicate IsSpace(u: CodeUnit) {
    9 <= u <= 13 || u == 32 || u == 0xA0 || u == 0x1680 || 0x2000 <= u <= 0x200A
    || u == 0x2028 || u == 0x2029 || u == 0x202F || u == 0x205F || u == 0x3000 || u == 0xFEFF
  }

  function TrimStart(s: JsString): JsString {
    if s == [] || !IsSpace(s[0]) then s else TrimStart(s[1..])
  }

  function TrimEnd(s: JsString): JsString {
    if s == [] || !IsSpace(s[|s| - 1]) then s else TrimEnd(s[..|s| - 1])
  }

  function Trim(s: JsString): JsString {
    TrimEnd(TrimStart(s))
  }

  predicate AllSpace(s: JsString) {
    forall i | 0 <= i < |s| :: IsSpace(s[i])
  }

  lemma {:induction false} TrimStartPadded(before: JsString, s: JsString)
    requires AllSpace(before) && (s != [] ==> !IsSpace(s[0]))
    ensures TrimStart(before + s) == s
  {
    if before == [] {
      assert before + s == s;
    } else {
      assert (before + s)[1..] == before[1..] + s;
      TrimStartPadded(before[1..], s);
    }
  }

  lemma {:induction false} TrimEndPadded(s: JsString, after: JsString)
    requires AllSpace(after) && (s != [] ==> !IsSpace(s[|s| - 1]))
    ensures TrimEnd(s + after) == s
  {
    if after == [] {
      assert s + after == s;
    } else {
      assert (s + after)[..|s + after| - 1] == s + after[..|after| - 1];
      TrimEndPadded(s, after[..|after| - 1]);
    }
  }

  /** Trimming takes exactly the space at both ends. */
  lemma TrimPadded(before: JsString, s: JsString, after: JsString)
    requires AllSpace(before) && AllSpace(after)
    requires s != [] && !IsSpace(s[0]) && !IsSpace(s[|s| - 1])
    ensures Trim(before + s + after) == s
  {
    assert before + s + after == before + (s + after) && (s + after)[0] == s[0];
    TrimStartPadded(before, s + after);
    TrimEndPadded(s, after);
  }

  lemma TrimBlank(s: JsString)
    requires AllSpace(s)
    ensures Trim(s) == []
  {
    TrimStartPadded(s, []);
    assert s + [] == s;
  }

  lemma TrimLine(s: JsString)
    requires s != [] && !IsSpace(s[0]) && !IsSpace(s[|s| - 1])
    ensures Trim(s + [NEWLINE]) == s
  {
    TrimPadded([], s, [NEWLINE]);
    assert [] + s + [NEWLINE] == s + [NEWLINE];
  }
}

/** The decimal numerals a template string prints for natural numbers. */
module Decimal {
  import opened JsText

  predicate IsDigit(u: CodeUnit) {
    48 <= u <= 57
  }

  predicate AllDigits(s: JsString) {
    s != [] && forall i | 0 <= i < |s| :: IsDigit(s[i])
  }

  function Print(n: nat): (s: JsString)
    ensures AllDigits(s)
    ensures s[0] == 48 <==> n == 0
    ensures n < 10 ==> |s| == 1
  {
    if n < 10 then [48 + n] else Print(n / 10) + [48 + n % 10]
  }

  function Value(s: JsString): (n: nat)
    requires AllDigits(s)
  {
    if |s| == 1 then s[0] - 48
    else Value(s[..|s| - 1]) * 10 + (s[|s| - 1] - 48)
  }

  lemma {:induction false} ValueOfPrint(n: nat)
    ensures Value(Print(n)) == n
  {
    if n >= 10 {
      ValueOfPrint(n / 10);
      assert Print(n)[..|Print(n)| - 1] == Print(n / 10);
    }
  }

  lemma PrintInjective(m: nat, n: nat)
    requires Print(m) == Print(n)
    ensures m == n
  {
    ValueOfPrint(m);
    ValueOfPrint(n);
  }
}

/** UTF-16 strings as Unicode text, and text as UTF-8 bytes (RFC 3629). */
module Unicode {
  import opened JsText

  type Scalar = x: int | 0 <= x < 0xD800 || 0xE000 <= x < 0x110000 witness 0
  type Text = seq<Scalar>

  const REPLACEMENT: Scalar := 0xFFFD

  predicate High(u: CodeUnit) {
    0xD800 <= u < 0xDC00
  }

  predicate Low(u: CodeUnit) {
    0xDC00 <= u < 0xE000
  }

  /** No surrogate stands alone. */
  predicate WellFormed(s: JsString) {
    if s == [] then true
    else if High(s[0]) then |s| > 1 && Low(s[1]) && WellFormed(s[2..])
    else !Low(s[0]) && WellFormed(s[1..])
  }

  /** The scalars of a string; a surrogate standing alone becomes the replacement character. */
  function ToText(s: JsString): (t: Text) {
    if s == [] then []
    else if High(s[0]) && |s| > 1 && Low(s[1]) then
      [0x10000 + (s[0] - 0xD800) * 0x400 + (s[1] - 0xDC00)] + ToText(s[2..])
    else if High(s[0]) || Low(s[0]) then [REPLACEMENT] + ToText(s[1..])
    else [s[0]] + ToText(s[1..])
  }

  function Units(c: Scalar): (s: JsString) {
    if c < 0x10000 then [c]
    else [0xD800 + (c - 0x10000) / 0x400, 0xDC00 + (c - 0x10000) % 0x400]
  }

  function FromText(t: Text): (s: JsString) {
    if t == [] then [] else Units(t[0]) + FromText(t[1..])
  }

  lemma {:induction false} FromTextWellFormed(t: Text)
    ensures WellFormed(FromText(t)) && ToText(FromText(t)) == t
  {
    if t != [] {
      FromTextWellFormed(t[1..]);
      var s, rest := FromText(t), FromText(t[1..]);
      assert t == [t[0]] + t[1..];
      if t[0] < 0x10000 {
        assert s[1..] == rest;
      } else {
        assert s[2..] == rest;
      }
    }
  }

  /** Going through text gives a string back exactly when it had no lone surrogate. */
  lemma {:induction false} FromToText(s: JsString)
    ensures FromText(ToText(s)) == s <==> WellFormed(s)
  {
    FromTextWellFormed(ToText(s));
    if WellFormed(s) {
      FromToWellFormed(s);
    }
  }

  lemma {:induction false} FromToWellFormed(s: JsString)
    requires WellFormed(s)
    ensures FromText(ToText(s)) == s
  {
    if s != [] {
      if High(s[0]) {
        FromToWellFormed(s[2..]);
        assert ToText(s)[1..] == ToText(s[2..]);
        assert s == [s[0], s[1]] + s[2..];
      } else {
        FromToWellFormed(s[1..]);
        assert ToText(s)[1..] == ToText(s[1..]);
        assert s == [s[0]] + s[1..];
      }
    }
  }

  function EncodeScalar(c: Scalar): (b: seq<Byte>)
    ensures 1 <= |b| <= 4
  {
    if c < 0x80 then [c]
    else if c < 0x800 then [0xC0 + c / 64, 0x80 + c % 64]
    else if c < 0x10000 then [0xE0 + c / 4096, 0x80 + c / 64 % 64, 0x80 + c % 64]
    else [0xF0 + c / 262144, 0x80 + c / 4096 % 64, 0x80 + c / 64 % 64, 0x80 + c % 64]
  }

  function EncodeUtf8(t: Text): (b: seq<Byte>) {
    if t == [] then [] else EncodeScalar(t[0]) + EncodeUtf8(t[1..])
  }

  predicate Continues(b: seq<Byte>, i: nat) {
    i < |b| && 0x80 <= b[i] < 0xC0
  }

  /** The second byte's range depends on the first: it shuts out overlong forms and surrogates. */
  predicate SecondOk(b: seq<Byte>)
    requires |b| > 0
  {
    && Continues(b, 1)
    && (b[0] == 0xE0 ==> b[1] >= 0xA0) && (b[0] == 0xED ==> b[1] < 0xA0)
    && (b[0] == 0xF0 ==> b[1] >= 0x90) && (b[0] == 0xF4 ==> b[1] < 0x90)
  }

  /** One scalar off the front, and how many bytes it took; a malformed start costs its longest valid
      prefix and reads as the replacement character. */
  function DecodeScalar(b: seq<Byte>): (r: (Scalar, nat))
    requires |b| > 0
    ensures 1 <= r.1 <= |b|
  {
    if b[0] < 0x80 then (b[0], 1)
    else if 0xC2 <= b[0] < 0xE0 then
      if Continues(b, 1) then ((b[0] as int - 0xC0) * 64 + (b[1] as int - 0x80), 2) else (REPLACEMENT, 1)
    else if 0xE0 <= b[0] < 0xF0 then
      if !SecondOk(b) then (REPLACEMENT, 1)
      else if !Continues(b, 2) then (REPLACEMENT, 2)
      else ((b[0] as int - 0xE0) * 4096 + (b[1] as int - 0x80) * 64 + (b[2] as int - 0x80), 3)
    else if 0xF0 <= b[0] < 0xF5 then
      if !SecondOk(b) then (REPLACEMENT, 1)
      else if !Continues(b, 2) then (REPLACEMENT, 2)
      else if !Continues(b, 3) then (REPLACEMENT, 3)
      else
        ((b[0] as int - 0xF0) * 262144 + (b[1] as int - 0x80) * 4096 + (b[2] as int - 0x80) * 64
         + (b[3] as int - 0x80), 4)
    else (REPLACEMENT, 1)
  }

  function DecodeUtf8(b: seq<Byte>): (t: Text) {
    if b == [] then []
    else
      var (c, n) := DecodeScalar(b);
      [c] + DecodeUtf8(b[n..])
  }

  lemma DecodeTwo(c: Scalar, rest: seq<Byte>)
    requires 0x80 <= c < 0x800
    ensures DecodeScalar(EncodeScalar(c) + rest) == (c, 2)
  {
    var b := EncodeScalar(c) + rest;
    assert b[0] == 0xC0 + c / 64 && b[1] == 0x80 + c % 64;
  }

  lemma DecodeThree(c: Scalar, rest: seq<Byte>)
    requires 0x800 <= c < 0x10000
    ensures DecodeScalar(EncodeScalar(c) + rest) == (c, 3)
  {
    var b := EncodeScalar(c) + rest;
    assert b[0] == 0xE0 + c / 4096 && b[1] == 0x80 + c / 64 % 64 && b[2] == 0x80 + c % 64;
    assert c / 4096 == c / 64 / 64;
  }

  lemma DecodeFour(c: Scalar, rest: seq<Byte>)
    requires 0x10000 <= c
    ensures DecodeScalar(EncodeScalar(c) + rest) == (c, 4)
  {
    var b := EncodeScalar(c) + rest;
    assert b[0] == 0xF0 + c / 262144 && b[1] == 0x80 + c / 4096 % 64;
    assert b[2] == 0x80 + c / 64 % 64 && b[3] == 0x80 + c % 64;
    assert c / 4096 == c / 64 / 64 && c / 262144 == c / 64 / 64 / 64;
  }

  lemma DecodeEncodeScalar(c: Scalar, rest: seq<Byte>)
    ensures DecodeScalar(EncodeScalar(c) + rest) == (c, |EncodeScalar(c)|)
  {
    if c < 0x80 {
      assert (EncodeScalar(c) + rest)[0] == c;
    } else if c < 0x800 {
      DecodeTwo(c, rest);
    } else if c < 0x10000 {
      DecodeThree(c, rest);
    } else {
      DecodeFour(c, rest);
    }
  }

  /** Decoding UTF-8 undoes encoding, for every text. */
  lemma {:induction false} DecodeEncodeUtf8(t: Text)
    ensures DecodeUtf8(EncodeUtf8(t)) == t
  {
    if t != [] {
      var rest := EncodeUtf8(t[1..]);
      DecodeEncodeScalar(t[0], rest);
      DecodeEncodeUtf8(t[1..]);
      assert (EncodeScalar(t[0]) + rest)[|EncodeScalar(t[0])|..] == rest;
    }
  }

  /** `Buffer.from(s, 'utf8')` and `buffer.toString('utf8')`. */
  function ToBytes(s: JsString): (b: seq<Byte>) {
    EncodeUtf8(ToText(s))
  }

  function FromBytes(b: seq<Byte>): (s: JsString) {
    FromText(DecodeUtf8(b))
  }

  lemma FromToBytes(s: JsString)
    ensures FromBytes(ToBytes(s)) == s <==> WellFormed(s)
    ensures WellFormed(FromBytes(ToBytes(s)))
  {
    DecodeEncodeUtf8(ToText(s));
    FromToText(s);
    FromTextWellFormed(ToText(s));
  }
}

/** Unpadded base64url (section 5 of RFC 4648). */
module Base64Url {
  import opened JsText

  type Sextet = x: int | 0 <= x < 64

  function Letter(x: Sextet): (u: CodeUnit) {
    if x < 26 then 65 + x
    else if x < 52 then 97 + (x - 26)
    else if x < 62 then 48 + (x - 52)
    else if x == 62 then 45
    else 95
  }

  /** The reader also takes the two letters of plain base64 and ignores every other unit. */
  function LetterValue(u: CodeUnit): (x: Option<Sextet>)
    ensures forall y: Sextet :: Letter(y) == u ==> x == Some(y)
  {
    if 65 <= u < 91 then Some(u - 65)
    else if 97 <= u < 123 then Some(u - 97 + 26)
    else if 48 <= u < 58 then Some(u - 48 + 52)
    else if u == 45 || u == 43 then Some(62)
    else if u == 95 || u == 47 then Some(63)
    else None
  }

  function Sextets(b: seq<Byte>): (x: seq<Sextet>) {
    if b == [] then []
    else if |b| == 1 then [b[0] / 4, b[0] % 4 * 16]
    else if |b| == 2 then [b[0] / 4, b[0] % 4 * 16 + b[1] / 16, b[1] % 16 * 4]
    else [b[0] / 4, b[0] % 4 * 16 + b[1] / 16, b[1] % 16 * 4 + b[2] / 64, b[2] % 64] + Sextets(b[3..])
  }

  function Bytes(x: seq<Sextet>): (b: seq<Byte>) {
    if |x| <= 1 then []
    else if |x| == 2 then [x[0] as int * 4 + x[1] / 16]
    else if |x| == 3 then [x[0] as int * 4 + x[1] / 16, x[1] as int % 16 * 16 + x[2] / 4]
    else [x[0] as int * 4 + x[1] / 16, x[1] as int % 16 * 16 + x[2] / 4, x[2] as int % 4 * 64 + x[3]] + Bytes(x[4..])
  }

  lemma {:induction false} BytesOfSextets(b: seq<Byte>)
    ensures Bytes(Sextets(b)) == b
  {
    if |b| >= 3 {
      BytesOfSextets(b[3..]);
      assert Sextets(b)[4..] == Sextets(b[3..]);
      assert b == [b[0], b[1], b[2]] + b[3..];
    }
  }

  function Letters(x: seq<Sextet>): (s: JsString) {
    if x == [] then [] else [Letter(x[0])] + Letters(x[1..])
  }

  function Values(s: JsString): (x: seq<Sextet>) {
    if s == [] then []
    else (match LetterValue(s[0]) case Some(v) => [v] case None => []) + Values(s[1..])
  }

  lemma ValueOfLetter(y: Sextet, s: JsString)
    ensures Values([Letter(y)] + s) == [y] + Values(s)
  {
  }

  lemma {:induction false} ValuesOfLetters(x: seq<Sextet>, noise: JsString)
    ensures Values(Letters(x) + noise) == x + Values(noise)
  {
    hide Letter, Values;
    if x == [] {
      assert Letters(x) + noise == noise;
    } else {
      ValuesOfLetters(x[1..], noise);
      assert Letters(x) + noise == [Letter(x[0])] + (Letters(x[1..]) + noise);
      ValueOfLetter(x[0], Letters(x[1..]) + noise);
      assert x == [x[0]] + x[1..];
    }
  }

  function Encode(b: seq<Byte>): (s: JsString) {
    Letters(Sextets(b))
  }

  function Decode(s: JsString): (b: seq<Byte>) {
    Bytes(Values(s))
  }

  predicate IsLetter(u: CodeUnit) {
    65 <= u < 91 || 97 <= u < 123 || 48 <= u < 58 || u == 45 || u == 95
  }

  /** Decoding undoes encoding, and still does when units outside both alphabets follow. */
  lemma DecodeEncode(b: seq<Byte>, noise: JsString)
    requires forall i | 0 <= i < |noise| :: LetterValue(noise[i]).None?
    ensures Decode(Encode(b) + noise) == b
  {
    ValuesOfLetters(Sextets(b), noise);
    NoValues(noise);
    assert Sextets(b) + [] == Sextets(b);
    BytesOfSextets(b);
  }

  lemma {:induction false} NoValues(noise: JsString)
    requires forall i | 0 <= i < |noise| :: LetterValue(noise[i]).None?
    ensures Values(noise) == []
  {
    if noise != [] {
      NoValues(noise[1..]);
    }
  }

  /** The bits that pad the last letter are zero, and there is no more than that letter. */
  lemma {:induction false} EncodeIsCanonical(b: seq<Byte>)
    ensures |Sextets(b)| == (|b| * 4 + 2) / 3
    ensures |b| % 3 == 1 ==> Sextets(b)[|Sextets(b)| - 1] % 16 == 0
    ensures |b| % 3 == 2 ==> Sextets(b)[|Sextets(b)| - 1] % 4 == 0
  {
    if |b| >= 3 {
      EncodeIsCanonical(b[3..]);
    }
  }

  lemma {:induction false} EncodeAlphabet(x: seq<Sextet>)
    ensures forall i | 0 <= i < |Letters(x)| :: IsLetter(Letters(x)[i])
  {
    if x != [] {
      EncodeAlphabet(x[1..]);
    }
  }
}
