/** The opaque page cursor of the inbox listing: a feed position as base64url text. */
module PageCursor {
  import opened JsText
  import Decimal
  import Unicode
  import Base64Url

  const COLON: CodeUnit := 58
  const MINUS: CodeUnit := 45

  /** Whole numbers a JavaScript number holds exactly. */
  const TWO_53: int := 0x20_0000_0000_0000
  type SafeInt = x: int | -0x20_0000_0000_0000 < x < 0x20_0000_0000_0000

  datatype Position = Position(receivedAt: int, id: JsString)

  datatype Decoded = Issued(position: Position) | Refused

  function PrintInt(n: SafeInt): (s: JsString)
    ensures s != [] && (s[0] == MINUS <==> n < 0)
  {
    if n < 0 then [MINUS] + Decimal.Print(-n) else Decimal.Print(n)
  }

  /** `Number(text)`: plain decimal integers are read here, every other notation by `other`. */
  function ReadNumber(s: JsString, other: JsString -> Number): (n: Number) {
    if Decimal.AllDigits(s) && Decimal.Value(s) < TWO_53 then Finite(Decimal.Value(s) as real)
    else if s != [] && s[0] == MINUS && Decimal.AllDigits(s[1..]) && Decimal.Value(s[1..]) < TWO_53 then
      Finite(-(Decimal.Value(s[1..]) as real))
    else other(s)
  }

  function CursorText(receivedAt: SafeInt, id: JsString): (s: JsString) {
    PrintInt(receivedAt) + [COLON] + id
  }

  function Encode(receivedAt: SafeInt, id: JsString): (cursor: JsString) {
    Base64Url.Encode(Unicode.ToBytes(CursorText(receivedAt, id)))
  }

  function Decode(raw: JsString, other: JsString -> Number): (r: Decoded) {
    var decoded := Unicode.FromBytes(Base64Url.Decode(raw));
    var split := IndexOf(decoded, COLON);
    if split == |decoded| || split == 0 then Refused
    else
      var receivedAt := ReadNumber(decoded[..split], other);
      var id := decoded[split + 1..];
      if receivedAt.NotFinite? || receivedAt.value < 0.0 || id == [] then Refused
      else Issued(Position(receivedAt.value.Floor, id))
  }

  /** The text of a cursor is the position's number before the first colon, and its id after it. */
  ghost predicate Reads(text: JsString, head: JsString, p: Position, other: JsString -> Number) {
    && head != [] && COLON !in head && p.id != [] && text == head + [COLON] + p.id
    && ReadNumber(head, other).Finite? && ReadNumber(head, other).value >= 0.0
    && p.receivedAt == ReadNumber(head, other).value.Floor
  }

  /** A cursor is taken exactly when it holds such a text, and refused otherwise. */
  lemma DecodeExactly(raw: JsString, p: Position, other: JsString -> Number)
    ensures Decode(raw, other) == Issued(p) <==>
            exists head :: Reads(Unicode.FromBytes(Base64Url.Decode(raw)), head, p, other)
  {
    var text := Unicode.FromBytes(Base64Url.Decode(raw));
    if head :| Reads(text, head, p, other) {
      IndexOfFirst(head, COLON, p.id);
      assert text[..|head|] == head && text[|head| + 1..] == p.id;
    }
    if Decode(raw, other) == Issued(p) {
      var split := IndexOf(text, COLON);
      assert text == text[..split] + [COLON] + text[split + 1..];
      assert Reads(text, text[..split], p, other);
    }
  }

  predicate Plain(s: JsString) {
    forall i | 0 <= i < |s| :: !Unicode.High(s[i]) && !Unicode.Low(s[i])
  }

  /** Text passes through unchanged ahead of anything else. */
  lemma {:induction false} PlainPassesThrough(a: JsString, b: JsString)
    requires Plain(a)
    ensures Unicode.FromText(Unicode.ToText(a + b)) == a + Unicode.FromText(Unicode.ToText(b))
  {
    if a == [] {
      assert a + b == b;
    } else {
      PlainPassesThrough(a[1..], b);
      assert (a + b)[1..] == a[1..] + b;
      assert Unicode.ToText(a + b)[1..] == Unicode.ToText(a[1..] + b);
      assert a == [a[0]] + a[1..];
    }
  }

  lemma PrintIntPlain(n: SafeInt)
    ensures Plain(PrintInt(n)) && COLON !in PrintInt(n) && PrintInt(n) != []
  {
  }

  lemma ReadPrinted(n: SafeInt, other: JsString -> Number)
    ensures ReadNumber(PrintInt(n), other) == Finite(n as real)
  {
    if n < 0 {
      Decimal.ValueOfPrint(-n);
      assert PrintInt(n)[1..] == Decimal.Print(-n);
      assert !Decimal.IsDigit(PrintInt(n)[0]);
    } else {
      Decimal.ValueOfPrint(n);
    }
  }

  /** What decoding gives back for an encoded position, whatever the id holds and whatever units outside
      both alphabets were appended to the cursor. */
  lemma DecodeOfEncode(n: SafeInt, id: JsString, noise: JsString, other: JsString -> Number)
    requires forall i | 0 <= i < |noise| :: Base64Url.LetterValue(noise[i]).None?
    ensures Decode(Encode(n, id) + noise, other) ==
            if n < 0 || id == [] then Refused
            else Issued(Position(n, Unicode.FromText(Unicode.ToText(id))))
  {
    var head := PrintInt(n);
    var kept := Unicode.FromText(Unicode.ToText(id));
    Base64Url.DecodeEncode(Unicode.ToBytes(CursorText(n, id)), noise);
    Unicode.DecodeEncodeUtf8(Unicode.ToText(CursorText(n, id)));
    PrintIntPlain(n);
    PlainPassesThrough(head + [COLON], id);
    var decoded := head + [COLON] + kept;
    IndexOfFirst(head, COLON, kept);
    assert decoded[..|head|] == head && decoded[|head| + 1..] == kept;
    ReadPrinted(n, other);
    KeptNonEmpty(id);
  }

  lemma KeptNonEmpty(id: JsString)
    ensures Unicode.FromText(Unicode.ToText(id)) == [] <==> id == []
  {
  }

  /** A cursor leads back to the position it was made for exactly when the position is one the store
      can hold: not before the epoch, with an id that is there and has no lone surrogate. */
  lemma RoundTrip(n: SafeInt, id: JsString, other: JsString -> Number)
    ensures Decode(Encode(n, id), other) == Issued(Position(n, id))
            <==> n >= 0 && id != [] && Unicode.WellFormed(id)
  {
    DecodeOfEncode(n, id, [], other);
    assert Encode(n, id) + [] == Encode(n, id);
    Unicode.FromToText(id);
  }

  /** The decoder also takes strings that were never issued: a padded cursor decodes like the cursor. */
  lemma PaddedCursorDecodes(n: SafeInt, id: JsString, other: JsString -> Number)
    ensures Decode(Encode(n, id) + [61], other) == Decode(Encode(n, id), other)
    ensures forall m: SafeInt, other: JsString :: Encode(n, id) + [61] != Encode(m, other)
  {
    DecodeOfEncode(n, id, [61], other);
    DecodeOfEncode(n, id, [], other);
    assert Encode(n, id) + [] == Encode(n, id);
    forall m: SafeInt, b: JsString
      ensures Encode(n, id) + [61] != Encode(m, b)
    {
      Base64Url.EncodeAlphabet(Base64Url.Sextets(Unicode.ToBytes(CursorText(m, b))));
      assert (Encode(n, id) + [61])[|Encode(n, id)|] == 61;
      assert forall i | 0 <= i < |Encode(m, b)| :: Base64Url.IsLetter(Encode(m, b)[i]);
    }
  }
}
