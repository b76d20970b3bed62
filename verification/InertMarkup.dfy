/** Slack, Google Chat and WhatsApp text, and the table of surfaces a message can be sent to. */
module InertMarkup {
  import opened JsText
  import opened InertText

  const AMPERSAND: CodeUnit := 38
  const AMP: JsString := [38, 97, 109, 112, 59] // "&amp;"
  const LT: JsString := [38, 108, 116, 59] // "&lt;"
  const GT: JsString := [38, 103, 116, 59] // "&gt;"

  /** `text.replace(/u/g, by)` */
  function Replace(s: JsString, u: CodeUnit, with: JsString): JsString {
    if s == [] then [] else (if s[0] == u then with else [s[0]]) + Replace(s[1..], u, with)
  }

  lemma {:induction false} ReplaceConcat(a: JsString, b: JsString, u: CodeUnit, with: JsString)
    ensures Replace(a + b, u, with) == Replace(a, u, with) + Replace(b, u, with)
  {
    if a == [] {
      assert a + b == b;
    } else {
      assert (a + b)[1..] == a[1..] + b;
      ReplaceConcat(a[1..], b, u, with);
    }
  }

  lemma {:induction false} ReplaceAbsent(a: JsString, u: CodeUnit, with: JsString)
    requires u !in a
    ensures Replace(a, u, with) == a
  {
    if a != [] {
      ReplaceAbsent(a[1..], u, with);
      assert a == [a[0]] + a[1..];
    }
  }

  /** The three replacements, `&` first. */
  function EscapeEntities(s: JsString): JsString {
    Replace(Replace(Replace(s, AMPERSAND, AMP), OPEN, LT), CLOSE, GT)
  }

  function Entity(u: CodeUnit): JsString {
    if u == AMPERSAND then AMP else if u == OPEN then LT else if u == CLOSE then GT else [u]
  }

  function Entities(s: JsString): JsString {
    if s == [] then [] else Entity(s[0]) + Entities(s[1..])
  }

  lemma ReplaceOne(a: CodeUnit, u: CodeUnit, with: JsString)
    ensures Replace([a], u, with) == if a == u then with else [a]
  {
  }

  lemma EntityByPasses(u: CodeUnit)
    ensures EscapeEntities([u]) == Entity(u)
  {
    ReplaceOne(u, AMPERSAND, AMP);
    ReplaceOne(u, OPEN, LT);
    ReplaceOne(u, CLOSE, GT);
    ReplaceAbsent(AMP, OPEN, LT);
    ReplaceAbsent(AMP, CLOSE, GT);
    ReplaceAbsent(LT, CLOSE, GT);
    hide Replace;
  }

  /** Three passes over the text do what one table lookup per character does. */
  lemma {:induction false} ThreePassesAreOne(s: JsString)
    ensures EscapeEntities(s) == Entities(s)
  {
    if s != [] {
      var a, b := [s[0]], s[1..];
      assert s == a + b;
      ReplaceConcat(a, b, AMPERSAND, AMP);
      ReplaceConcat(Replace(a, AMPERSAND, AMP), Replace(b, AMPERSAND, AMP), OPEN, LT);
      ReplaceConcat(Replace(Replace(a, AMPERSAND, AMP), OPEN, LT),
                    Replace(Replace(b, AMPERSAND, AMP), OPEN, LT), CLOSE, GT);
      EntityByPasses(s[0]);
      ThreePassesAreOne(b);
    }
  }

  /** With `&` last, a `<` would not come back: the order of the passes is what makes them invertible. */
  lemma AmpersandMustGoFirst()
    ensures Replace(Replace([OPEN], OPEN, LT), AMPERSAND, AMP) == [38, 97, 109, 112, 59, 108, 116, 59]
    ensures Decode(Replace(Replace([OPEN], OPEN, LT), AMPERSAND, AMP)) == LT
  {
    assert [OPEN][1..] == [];
    assert Replace([OPEN], OPEN, LT) == LT;
    assert LT[1..] == [108, 116, 59];
    ReplaceAbsent([108, 116, 59], AMPERSAND, AMP);
    var t := AMP + [108, 116, 59];
    assert t[5..] == [108, 116, 59];
    DecodePlain([108, 116, 59]);
  }

  /** Reading the three entities back. */
  function Decode(s: JsString): JsString {
    if s == [] then []
    else if AMP <= s then [AMPERSAND] + Decode(s[5..])
    else if LT <= s then [OPEN] + Decode(s[4..])
    else if GT <= s then [CLOSE] + Decode(s[4..])
    else [s[0]] + Decode(s[1..])
  }

  lemma {:induction false} DecodePlain(s: JsString)
    requires AMPERSAND !in s
    ensures Decode(s) == s
  {
    if s != [] {
      DecodePlain(s[1..]);
      assert s == [s[0]] + s[1..];
    }
  }

  lemma {:induction false} DecodeOfEntities(s: JsString)
    ensures Decode(Entities(s)) == s
  {
    if s != [] {
      var e, rest := Entity(s[0]), Entities(s[1..]);
      DecodeOfEntities(s[1..]);
      var t := e + rest;
      assert e <= t && t[|e|..] == rest;
      assert s == [s[0]] + s[1..];
      assert t[0] == e[0] && (|e| > 1 ==> t[1] == e[1]);
    }
  }

  // ----- The zero-width break -----

  predicate Delimiter(u: CodeUnit) {
    u == 42 || u == 95 || u == 126 || u == 96
  }

  /** `text.replace(/[*_~`]/g, ch => ch + ZERO_WIDTH_SPACE)` */
  function BreakDelimiters(s: JsString): JsString {
    if s == [] then []
    else (if Delimiter(s[0]) then [s[0], ZERO_WIDTH] else [s[0]]) + BreakDelimiters(s[1..])
  }

  lemma {:induction false} DropOfBreak(s: JsString)
    ensures DropZeroWidth(BreakDelimiters(s)) == DropZeroWidth(s)
  {
    if s != [] {
      DropOfBreak(s[1..]);
      var t, rest := BreakDelimiters(s), BreakDelimiters(s[1..]);
      if Delimiter(s[0]) {
        assert t[1..] == [ZERO_WIDTH] + rest && ([ZERO_WIDTH] + rest)[1..] == rest;
      } else {
        assert t[1..] == rest;
      }
    }
  }

  lemma DropOfEntity(u: CodeUnit)
    ensures DropZeroWidth(Entity(u)) == if u == ZERO_WIDTH then [] else Entity(u)
  {
    if u == ZERO_WIDTH {
      assert Entity(u) == [ZERO_WIDTH] && Entity(u)[1..] == [];
    } else {
      DropNothing(Entity(u));
    }
  }

  lemma {:induction false} DropOfEntities(s: JsString)
    ensures DropZeroWidth(Entities(s)) == Entities(DropZeroWidth(s))
  {
    hide Entity;
    if s != [] {
      DropOfEntities(s[1..]);
      DropConcat(Entity(s[0]), Entities(s[1..]));
      DropOfEntity(s[0]);
      var seen := DropZeroWidth(s[1..]);
      assert s[0] == ZERO_WIDTH ==> DropZeroWidth(s) == seen;
      assert s[0] != ZERO_WIDTH ==> DropZeroWidth(s) == [s[0]] + seen && DropZeroWidth(s)[1..] == seen;
    }
  }

  /** `escapeSlackMrkdwn` and `escapeGoogleChatMarkup`. */
  function EscapeMarkup(s: JsString): JsString {
    BreakDelimiters(EscapeEntities(s))
  }

  lemma MarkupUndone(s: JsString)
    ensures Decode(DropZeroWidth(EscapeMarkup(s))) == DropZeroWidth(s)
  {
    ThreePassesAreOne(s);
    DropOfBreak(Entities(s));
    DropOfEntities(s);
    DecodeOfEntities(DropZeroWidth(s));
  }

  /** No raw angle bracket, every `&` begins one of the entities, every delimiter is broken. */
  predicate Inert(s: JsString) {
    if s == [] then true
    else
      && s[0] != OPEN && s[0] != CLOSE
      && (s[0] == AMPERSAND ==> AMP <= s || LT <= s || GT <= s)
      && (Delimiter(s[0]) ==> |s| > 1 && s[1] == ZERO_WIDTH)
      && Inert(s[1..])
  }

  lemma {:induction false} InertPrepend(p: JsString, s: JsString)
    requires Inert(s)
    requires forall i | 0 <= i < |p| :: p[i] != OPEN && p[i] != CLOSE && p[i] != AMPERSAND && !Delimiter(p[i])
    ensures Inert(p + s)
  {
    if p == [] {
      assert p + s == s;
    } else {
      InertPrepend(p[1..], s);
      assert (p + s)[1..] == p[1..] + s;
    }
  }

  lemma {:induction false} BreakOfPlain(p: JsString, s: JsString)
    requires forall i | 0 <= i < |p| :: !Delimiter(p[i])
    ensures BreakDelimiters(p + s) == p + BreakDelimiters(s)
  {
    if p == [] {
      assert p + s == s;
    } else {
      BreakOfPlain(p[1..], s);
      assert (p + s)[1..] == p[1..] + s;
      assert p == [p[0]] + p[1..];
    }
  }

  /** An entity's units: only the first can need an entity, and none is a delimiter unless it is one. */
  lemma EntityUnits(u: CodeUnit)
    ensures var e := Entity(u);
            && e != [] && e[0] != OPEN && e[0] != CLOSE
            && (e[0] == AMPERSAND ==> e == AMP || e == LT || e == GT)
            && (forall i | 1 <= i < |e| :: e[i] != OPEN && e[i] != CLOSE && e[i] != AMPERSAND && !Delimiter(e[i]))
            && (Delimiter(u) ==> e == [u]) && (Delimiter(e[0]) <==> Delimiter(u))
  {
  }

  lemma {:induction false} BrokenEntitiesInert(s: JsString)
    ensures Inert(BreakDelimiters(Entities(s)))
  {
    if s != [] {
      BrokenEntitiesInert(s[1..]);
      EntityUnits(s[0]);
      BrokenUnitInert(s[0], Entities(s[1..]));
    }
  }

  lemma BrokenUnitInert(u: CodeUnit, rest: JsString)
    requires Inert(BreakDelimiters(rest))
    ensures Inert(BreakDelimiters(Entity(u) + rest))
  {
    EntityUnits(u);
    if Delimiter(u) {
      assert ([u] + rest)[1..] == rest;
      assert BreakDelimiters([u] + rest) == [u, ZERO_WIDTH] + BreakDelimiters(rest);
      DelimiterInert(u, BreakDelimiters(rest));
    } else {
      BreakOfPlain(Entity(u), rest);
      EntityInert(u, BreakDelimiters(rest));
    }
  }

  lemma DelimiterInert(u: CodeUnit, broken: JsString)
    requires Delimiter(u) && Inert(broken)
    ensures Inert([u, ZERO_WIDTH] + broken)
  {
  }

  lemma EntityInert(u: CodeUnit, broken: JsString)
    requires !Delimiter(u) && Inert(broken)
    ensures Inert(Entity(u) + broken)
  {
    EntityUnits(u);
    hide Entity;
    var e := Entity(u);
    InertPrepend(e[1..], broken);
    assert (e + broken)[1..] == e[1..] + broken;
    assert e <= e + broken && (e + broken)[0] == e[0];
  }

  lemma MarkupIsInert(s: JsString)
    ensures Inert(EscapeMarkup(s))
  {
    ThreePassesAreOne(s);
    BrokenEntitiesInert(s);
  }

  /** The characters and entities the escapers are about. */
  lemma MarkupSpells(u: CodeUnit)
    ensures Delimiter(u) <==> u in Ascii("*_~`")
    ensures AMP == Ascii("&amp;") && LT == Ascii("&lt;") && GT == Ascii("&gt;") && [AMPERSAND] == Ascii("&")
  {
    assert Ascii("*_~`") == [42, 95, 126, 96];
  }

  function Delimiters(s: JsString): (n: nat) {
    if s == [] then 0 else (if Delimiter(s[0]) then 1 else 0) + Delimiters(s[1..])
  }

  /** One zero-width space for every delimiter, and nothing else. */
  lemma {:induction false} BreakAddsOnlyNeeded(s: JsString)
    ensures |BreakDelimiters(s)| == |s| + Delimiters(s)
    ensures BreakDelimiters(s) == s <==> Delimiters(s) == 0
  {
    if s != [] {
      BreakAddsOnlyNeeded(s[1..]);
      assert s == [s[0]] + s[1..];
    }
  }

  predicate HasEntity(u: CodeUnit) {
    u == AMPERSAND || u == OPEN || u == CLOSE
  }

  lemma {:induction false} EntitiesOnlyNeeded(s: JsString)
    ensures |Entities(s)| >= |s|
    ensures Entities(s) == s <==> forall i | 0 <= i < |s| :: !HasEntity(s[i])
  {
    if s != [] {
      EntitiesOnlyNeeded(s[1..]);
      assert s == [s[0]] + s[1..];
      assert HasEntity(s[0]) ==> |Entities(s)| > |s|;
      assert !HasEntity(s[0]) ==> Entities(s) == [s[0]] + Entities(s[1..]) && Entities(s)[1..] == Entities(s[1..]);
    }
  }

  /** A text without bracket, ampersand or delimiter is sent as it is, and no other. */
  lemma MarkupAddsOnlyNeeded(s: JsString)
    ensures EscapeMarkup(s) == s <==> Delimiters(s) == 0 && forall i | 0 <= i < |s| :: !HasEntity(s[i])
  {
    ThreePassesAreOne(s);
    EntitiesOnlyNeeded(s);
    BreakAddsOnlyNeeded(s);
    BreakAddsOnlyNeeded(Entities(s));
  }

  // ----- The surfaces -----

  datatype Surface =
    | Discord | Mattermost | Slack | GoogleChat | WhatsApp
    | Telegram | Ntfy | Webhook | Signal | IMessage | BlueBubbles | MsTeams | Matrix
    | Web | Telephony

  /** None is the refusal: there is no pass-through for a surface without a verified transform. */
  function InertBodyFor(surface: Surface, text: JsString): Option<JsString> {
    match surface
    case Discord | Mattermost => Some(EscapeDiscord(text))
    case Slack | GoogleChat => Some(EscapeMarkup(text))
    case WhatsApp => Some(BreakDelimiters(text))
    case Telegram | Ntfy | Webhook | Signal | IMessage | BlueBubbles | MsTeams | Matrix => Some(text)
    case Web | Telephony => None
  }

  // ----- What a reader sees -----

  function Prefixed(u: CodeUnit, rest: Option<JsString>): Option<JsString> {
    if rest.None? then None else Some([u] + rest.value)
  }

  /** `s` begins a mention of a user, a role or a channel. */
  predicate StartsMention(s: JsString) {
    MentionDigits(s, AT, {33, 38}) != 0 || MentionDigits(s, HASH, {}) != 0
  }

  /** Discord's reading: a backslash takes the markup from a special character, a zero-width space is not
      seen.  None: something in the text is, or may be, read as markup or as a mention. */
  function ReadDiscord(s: JsString): Option<JsString>
    decreases |s|
  {
    if s == [] then Some([])
    else if s[0] == BACKSLASH && |s| > 1 && Special(s[1]) then Prefixed(s[1], ReadDiscord(s[2..]))
    else if s[0] == AT && CrowdWord(s[1..]) != [] then None
    else if StartsMention(s) then None
    else if s[0] == BACKSLASH then Prefixed(BACKSLASH, ReadDiscord(s[1..]))
    else if Special(s[0]) then None
    else if s[0] == ZERO_WIDTH then ReadDiscord(s[1..])
    else Prefixed(s[0], ReadDiscord(s[1..]))
  }

  /** Slack's and Google Chat's reading: an angle bracket is markup, a delimiter is unless a zero-width space
      follows it, and `&` stands only at the start of an entity. */
  function ReadMarkup(s: JsString): Option<JsString>
    decreases |s|
  {
    if s == [] then Some([])
    else if s[0] == OPEN || s[0] == CLOSE then None
    else if AMP <= s then Prefixed(AMPERSAND, ReadMarkup(s[5..]))
    else if LT <= s then Prefixed(OPEN, ReadMarkup(s[4..]))
    else if GT <= s then Prefixed(CLOSE, ReadMarkup(s[4..]))
    else if s[0] == AMPERSAND then None
    else if Delimiter(s[0]) && !(|s| > 1 && s[1] == ZERO_WIDTH) then None
    else if s[0] == ZERO_WIDTH then ReadMarkup(s[1..])
    else Prefixed(s[0], ReadMarkup(s[1..]))
  }

  /** WhatsApp's reading: only the delimiters are markup. */
  function ReadDelimited(s: JsString): Option<JsString> {
    if s == [] then Some([])
    else if Delimiter(s[0]) && !(|s| > 1 && s[1] == ZERO_WIDTH) then None
    else if s[0] == ZERO_WIDTH then ReadDelimited(s[1..])
    else Prefixed(s[0], ReadDelimited(s[1..]))
  }

  /** The literal characters a reader of the surface sees, or None when the body is read as markup. */
  function Rendered(surface: Surface, body: JsString): Option<JsString> {
    match surface
    case Discord | Mattermost => ReadDiscord(body)
    case Slack | GoogleChat => ReadMarkup(body)
    case WhatsApp => ReadDelimited(body)
    case _ => Some(DropZeroWidth(body))
  }

  lemma NoMentionStarts(s: JsString)
    requires AllEscaped(s)
    ensures !StartsMention(s)
  {
    EscapedClosesEscaped(s);
    NoMentionMatches(s, AT, {33, 38});
    NoMentionMatches(s, HASH, {});
  }

  /** Everything escaped and nobody called: Discord reads it literally. */
  lemma {:induction false} EscapedReadsLiterally(s: JsString)
    requires AllEscaped(s) && NoCrowd(s)
    ensures ReadDiscord(s) == Some(Unescape(DropZeroWidth(s)))
    decreases |s|
  {
    hide StartsMention, CrowdWord;
    if s != [] {
      NoMentionStarts(s);
      if s[0] == BACKSLASH {
        assert s[1..][1..] == s[2..];
        EscapedReadsLiterally(s[2..]);
        DropsPair(s);
      } else {
        EscapedReadsLiterally(s[1..]);
        var seen := DropZeroWidth(s[1..]);
        assert s[0] != ZERO_WIDTH ==> DropZeroWidth(s) == [s[0]] + seen && DropZeroWidth(s)[1..] == seen;
        assert s[0] == ZERO_WIDTH ==> DropZeroWidth(s) == seen;
      }
    }
  }

  lemma DropsPair(s: JsString)
    requires |s| > 1 && s[0] == BACKSLASH && Special(s[1])
    ensures Unescape(DropZeroWidth(s)) == [s[1]] + Unescape(DropZeroWidth(s[2..]))
  {
    var seen := DropZeroWidth(s[2..]);
    assert s[1..][1..] == s[2..];
    assert DropZeroWidth(s[1..]) == [s[1]] + seen;
    assert DropZeroWidth(s) == [s[0]] + ([s[1]] + seen) == [s[0], s[1]] + seen;
    assert ([s[0], s[1]] + seen)[2..] == seen;
  }

  lemma {:induction false} InertSuffix(s: JsString, k: nat)
    requires Inert(s) && k <= |s|
    ensures Inert(s[k..])
  {
    if k > 0 {
      InertSuffix(s[1..], k - 1);
      assert s[1..][k - 1..] == s[k..];
    }
  }

  function Named(e: JsString): CodeUnit {
    if e == AMP then AMPERSAND else if e == LT then OPEN else CLOSE
  }

  lemma DecodeEntityFirst(e: JsString, rest: JsString)
    requires e == AMP || e == LT || e == GT
    ensures Decode(e + rest) == [Named(e)] + Decode(rest)
  {
    var t := e + rest;
    assert e <= t && t[|e|..] == rest && t[0] == e[0] && t[1] == e[1];
  }

  /** An entity ahead of the rest is read as the character it stands for. */
  lemma DropsEntity(e: JsString, rest: JsString)
    requires e == AMP || e == LT || e == GT
    ensures Decode(DropZeroWidth(e + rest)) == [Named(e)] + Decode(DropZeroWidth(rest))
  {
    EntityIsSeen(e, rest);
    DecodeEntityFirst(e, DropZeroWidth(rest));
  }

  /** Inert text that begins with `&` begins with an entity. */
  lemma LeadingEntity(s: JsString) returns (e: JsString, rest: JsString)
    requires Inert(s) && s != [] && s[0] == AMPERSAND
    ensures (e == AMP || e == LT || e == GT) && s == e + rest && Inert(rest)
    ensures Decode(DropZeroWidth(s)) == [Named(e)] + Decode(DropZeroWidth(rest))
    ensures |DropZeroWidth(s)| == |e| + |DropZeroWidth(rest)|
  {
    e := if AMP <= s then AMP else if LT <= s then LT else GT;
    rest := s[|e|..];
    InertSuffix(s, |e|);
    hide Inert, Decode, DropZeroWidth;
    assert s == e + rest;
    DropsEntity(e, rest);
    EntityIsSeen(e, rest);
  }

  lemma EntityIsSeen(e: JsString, rest: JsString)
    requires e == AMP || e == LT || e == GT
    ensures DropZeroWidth(e + rest) == e + DropZeroWidth(rest)
  {
    assert ZERO_WIDTH !in e;
    hide DropZeroWidth;
    DropConcat(e, rest);
    DropNothing(e);
  }

  /** Inert text is read literally. */
  lemma {:induction false} InertReadsLiterally(s: JsString)
    requires Inert(s)
    ensures ReadMarkup(s) == Some(Decode(DropZeroWidth(s)))
    decreases |s|
  {
    if s != [] {
      if s[0] == AMPERSAND {
        var e, rest := LeadingEntity(s);
        assert s[|e|..] == rest && s[1] == e[1];
        InertReadsLiterally(rest);
      } else {
        InertReadsLiterally(s[1..]);
        PlainUnitReads(s);
      }
    }
  }

  lemma PlainUnitReads(s: JsString)
    requires s != [] && s[0] != AMPERSAND
    ensures Decode(DropZeroWidth(s)) ==
            if s[0] == ZERO_WIDTH then Decode(DropZeroWidth(s[1..])) else [s[0]] + Decode(DropZeroWidth(s[1..]))
    ensures !(AMP <= s) && !(LT <= s) && !(GT <= s)
  {
    var seen := DropZeroWidth(s[1..]);
    if s[0] == ZERO_WIDTH {
      assert DropZeroWidth(s) == seen;
    } else {
      assert DropZeroWidth(s) == [s[0]] + seen;
      DecodeUnit(s[0], seen);
    }
  }

  lemma DecodeUnit(u: CodeUnit, rest: JsString)
    requires u != AMPERSAND
    ensures Decode([u] + rest) == [u] + Decode(rest)
  {
    assert ([u] + rest)[0] == u && ([u] + rest)[1..] == rest;
  }

  lemma DelimitedFirst(u: CodeUnit, rest: JsString)
    ensures Delimiter(u) ==> ReadDelimited([u, ZERO_WIDTH] + rest) == Prefixed(u, ReadDelimited(rest))
    ensures !Delimiter(u) ==>
              ReadDelimited([u] + rest) ==
              if u == ZERO_WIDTH then ReadDelimited(rest) else Prefixed(u, ReadDelimited(rest))
  {
    var t := [u, ZERO_WIDTH] + rest;
    assert t[1..] == [ZERO_WIDTH] + rest && t[1..][1..] == rest;
    assert ([u] + rest)[1..] == rest;
  }

  lemma {:induction false} BrokenReadsLiterally(s: JsString)
    ensures ReadDelimited(BreakDelimiters(s)) == Some(DropZeroWidth(s))
  {
    hide ReadDelimited, Delimiter;
    if s == [] {
      NothingToRead();
    } else {
      BrokenReadsLiterally(s[1..]);
      DelimitedFirst(s[0], BreakDelimiters(s[1..]));
      assert s[0] == ZERO_WIDTH ==> DropZeroWidth(s) == DropZeroWidth(s[1..]);
      ZeroWidthIsPlain();
    }
  }

  lemma NothingToRead()
    ensures ReadDelimited([]) == Some([])
  {
  }

  lemma ZeroWidthIsPlain()
    ensures !Delimiter(ZERO_WIDTH)
  {
  }

  /** On every surface a message is offered to, nothing in it is read as markup or as a mention, and the
      reader sees the text that was sent. */
  lemma ArrivesAsLiteralText(surface: Surface, text: JsString)
    ensures InertBodyFor(surface, text).None? <==> surface.Web? || surface.Telephony?
    ensures surface in {Telegram, Ntfy, Webhook, Signal, IMessage, BlueBubbles, MsTeams, Matrix} ==>
              InertBodyFor(surface, text) == Some(text)
    ensures InertBodyFor(surface, text).Some? ==>
              Rendered(surface, InertBodyFor(surface, text).value) == Some(DropZeroWidth(text))
    ensures InertBodyFor(surface, text).Some? && ZERO_WIDTH !in text ==>
              Rendered(surface, InertBodyFor(surface, text).value) == Some(text)
  {
    hide EscapeDiscord, EscapeMarkup, BreakDelimiters, DropZeroWidth, Unescape, Decode, ReadDiscord, ReadMarkup,
         ReadDelimited;
    match surface {
      case Discord | Mattermost =>
        DiscordIsCrowdBreak(text);
        DiscordMentionsNobody(text);
        EscapedReadsLiterally(EscapeDiscord(text));
        DiscordUndone(text);
      case Slack | GoogleChat =>
        MarkupIsInert(text);
        InertReadsLiterally(EscapeMarkup(text));
        MarkupUndone(text);
      case WhatsApp =>
        BrokenReadsLiterally(text);
      case _ =>
    }
    if ZERO_WIDTH !in text {
      DropNothing(text);
    }
  }

  // ----- When the transforms are needed -----

  /** Slack and Google Chat read a text literally exactly when it is inert. */
  lemma {:induction false} LiteralIsInert(s: JsString)
    ensures ReadMarkup(s).Some? <==> Inert(s)
    decreases |s|
  {
    if Inert(s) {
      InertReadsLiterally(s);
    } else if s[0] == AMPERSAND && (AMP <= s || LT <= s || GT <= s) {
      var n := if AMP <= s then 5 else 4;
      LiteralIsInert(s[n..]);
      assert s[1..] == s[1..n] + s[n..];
      if Inert(s[n..]) {
        InertPrepend(s[1..n], s[n..]);
        assert false;
      }
    } else {
      LiteralIsInert(s[1..]);
    }
  }

  /** Reading an entity shortens the text. */
  lemma {:induction false} EntityShortens(s: JsString)
    requires Inert(s)
    ensures |Decode(DropZeroWidth(s))| <= |DropZeroWidth(s)|
    ensures AMPERSAND in s ==> |Decode(DropZeroWidth(s))| < |DropZeroWidth(s)|
    decreases |s|
  {
    if s != [] {
      if s[0] == AMPERSAND {
        var e, rest := LeadingEntity(s);
        EntityShortens(rest);
      } else {
        EntityShortens(s[1..]);
        PlainUnitReads(s);
        assert s == [s[0]] + s[1..];
      }
    }
  }

  lemma {:induction false} DropKeepsAway(s: JsString, u: CodeUnit)
    requires u !in s
    ensures u !in DropZeroWidth(s)
  {
    if s != [] {
      DropKeepsAway(s[1..], u);
    }
  }

  lemma MarkupArrivesRaw(s: JsString)
    ensures ReadMarkup(s) == Some(DropZeroWidth(s)) <==> Inert(s) && AMPERSAND !in s
  {
    hide Inert, ReadMarkup, Decode, DropZeroWidth;
    LiteralIsInert(s);
    if Inert(s) {
      InertReadsLiterally(s);
      EntityShortens(s);
      if AMPERSAND !in s {
        DropKeepsAway(s, AMPERSAND);
        DecodePlain(DropZeroWidth(s));
      }
    }
  }

  /** Every delimiter is followed by a zero-width space. */
  predicate Broken(s: JsString) {
    if s == [] then true
    else (Delimiter(s[0]) ==> |s| > 1 && s[1] == ZERO_WIDTH) && Broken(s[1..])
  }

  lemma {:induction false} DelimitedArrivesRaw(s: JsString)
    ensures if Broken(s) then ReadDelimited(s) == Some(DropZeroWidth(s)) else ReadDelimited(s).None?
  {
    if s != [] {
      DelimitedArrivesRaw(s[1..]);
      assert s[0] == ZERO_WIDTH ==> DropZeroWidth(s) == DropZeroWidth(s[1..]);
    }
  }

  /** No special character but backslashes, and none of those before another. */
  predicate LoneBackslashes(s: JsString) {
    if s == [] then true
    else
      && (Special(s[0]) ==> s[0] == BACKSLASH && (|s| > 1 ==> !Special(s[1])))
      && LoneBackslashes(s[1..])
  }

  lemma {:induction false} LoneBackslashesClose(s: JsString)
    requires LoneBackslashes(s)
    ensures CLOSE !in s
  {
    if s != [] {
      LoneBackslashesClose(s[1..]);
      assert s == [s[0]] + s[1..];
    }
  }

  lemma NoMentionWithoutClose(s: JsString)
    requires CLOSE !in s
    ensures !StartsMention(s)
  {
    NoMentionMatches(s, AT, {33, 38});
    NoMentionMatches(s, HASH, {});
  }

  /** Reading never adds to a text. */
  lemma {:induction false} ReadingIsNoLonger(s: JsString)
    ensures ReadDiscord(s).Some? ==> |ReadDiscord(s).value| <= |DropZeroWidth(s)|
    decreases |s|
  {
    hide StartsMention, CrowdWord;
    if s != [] {
      ReadingIsNoLonger(s[1..]);
      if |s| > 1 {
        ReadingIsNoLonger(s[2..]);
        assert s[1..][1..] == s[2..];
      }
    }
  }

  lemma {:induction false} DiscordArrivesRaw(s: JsString)
    ensures ReadDiscord(s) == Some(DropZeroWidth(s)) <==> NoCrowd(s) && LoneBackslashes(s)
    decreases |s|
  {
    hide StartsMention, CrowdWord;
    if s != [] {
      DiscordArrivesRaw(s[1..]);
      if LoneBackslashes(s) {
        LoneBackslashesClose(s);
        NoMentionWithoutClose(s);
      }
      if s[0] == BACKSLASH && |s| > 1 && Special(s[1]) {
        ReadingIsNoLonger(s[2..]);
        assert s[1..][1..] == s[2..];
        assert |DropZeroWidth(s)| == 2 + |DropZeroWidth(s[2..])|;
      } else {
        UnitArrives(s);
      }
    }
  }

  /** Away from an escape, reading a text as it stands is reading the rest as it stands. */
  lemma UnitArrives(s: JsString)
    requires s != [] && !(s[0] == BACKSLASH && |s| > 1 && Special(s[1]))
    ensures ReadDiscord(s) == Some(DropZeroWidth(s)) <==>
            && !(s[0] == AT && CrowdWord(s[1..]) != []) && !StartsMention(s) && (Special(s[0]) ==> s[0] == BACKSLASH)
            && ReadDiscord(s[1..]) == Some(DropZeroWidth(s[1..]))
  {
    hide StartsMention, CrowdWord;
    var seen := DropZeroWidth(s[1..]);
    assert s[0] == ZERO_WIDTH ==> DropZeroWidth(s) == seen;
    assert s[0] != ZERO_WIDTH ==> DropZeroWidth(s) == [s[0]] + seen && DropZeroWidth(s)[1..] == seen;
    if s[0] != ZERO_WIDTH && ReadDiscord(s[1..]).Some? {
      var rest := ReadDiscord(s[1..]).value;
      assert ([s[0]] + rest)[1..] == rest;
    }
  }

  /** A text a surface shows as its own literal characters when it is sent as it is. */
  predicate NeedsNoTransform(surface: Surface, s: JsString) {
    match surface
    case Discord | Mattermost => NoCrowd(s) && LoneBackslashes(s)
    case Slack | GoogleChat => Inert(s) && AMPERSAND !in s
    case WhatsApp => Broken(s)
    case _ => true
  }

  /** Sent as it is, a text arrives as its own literal characters exactly when it needs no transform. */
  lemma RawTextArrives(surface: Surface, s: JsString)
    ensures Rendered(surface, s) == Some(DropZeroWidth(s)) <==> NeedsNoTransform(surface, s)
  {
    DiscordArrivesRaw(s);
    MarkupArrivesRaw(s);
    DelimitedArrivesRaw(s);
    hide ReadDiscord, ReadMarkup, ReadDelimited, DropZeroWidth, NoCrowd, LoneBackslashes, Inert, Broken;
  }

  /** For instance, `*a*` would be read as markup, `@here` as a call and `<!a>` as a link. */
  lemma RawTextIsMarkup()
    ensures !NeedsNoTransform(Discord, [42, 97, 42]) && !NeedsNoTransform(Discord, [AT] + HERE)
    ensures !NeedsNoTransform(Slack, [42, 97, 42]) && !NeedsNoTransform(Slack, [OPEN, 33, 97, CLOSE])
    ensures !NeedsNoTransform(WhatsApp, [42, 97, 42])
    ensures Rendered(Discord, [AT] + HERE).None? && Rendered(Slack, [OPEN, 33, 97, CLOSE]).None?
  {
    assert ([AT] + HERE)[1..] == HERE;
  }
}
