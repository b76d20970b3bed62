/** Making a message arrive as literal text: the per-channel escapers and what undoes them. */
module InertText {
  import opened JsText
  import Decimal

  const ZERO_WIDTH: CodeUnit := 0x200B
  const AT: CodeUnit := 64
  const OPEN: CodeUnit := 60
  const CLOSE: CodeUnit := 62
  const HASH: CodeUnit := 35

  const EVERYONE: JsString := [101, 118, 101, 114, 121, 111, 110, 101] // "everyone"
  const HERE: JsString := [104, 101, 114, 101] // "here"

  /** What the reader sees: a zero-width space has no width. */
  function DropZeroWidth(s: JsString): JsString {
    if s == [] then []
    else (if s[0] == ZERO_WIDTH then [] else [s[0]]) + DropZeroWidth(s[1..])
  }

  lemma {:induction false} DropConcat(a: JsString, b: JsString)
    ensures DropZeroWidth(a + b) == DropZeroWidth(a) + DropZeroWidth(b)
  {
    if a == [] {
      assert a + b == b;
    } else {
      assert (a + b)[1..] == a[1..] + b;
      DropConcat(a[1..], b);
    }
  }

  lemma {:induction false} DropNothing(a: JsString)
    requires ZERO_WIDTH !in a
    ensures DropZeroWidth(a) == a
  {
    if a != [] {
      DropNothing(a[1..]);
      assert a == [a[0]] + a[1..];
    }
  }

  // ----- Discord and Mattermost -----

  predicate Special(u: CodeUnit) {
    u == 42 || u == 95 || u == 126 || u == 96 || u == 124 || u == CLOSE
    || u == 91 || u == 93 || u == 40 || u == 41 || u == BACKSLASH
  }

  /** `text.replace(/[*_~`|>[\]()\\]/g, ch => '\\' + ch)` */
  function EscapeSpecials(s: JsString): JsString {
    if s == [] then []
    else (if Special(s[0]) then [BACKSLASH, s[0]] else [s[0]]) + EscapeSpecials(s[1..])
  }

  /** Reading a backslash as "the next character, literally". */
  function Unescape(s: JsString): JsString {
    if s == [] then []
    else if s[0] == BACKSLASH && |s| > 1 then [s[1]] + Unescape(s[2..])
    else [s[0]] + Unescape(s[1..])
  }

  lemma {:induction false} UnescapeOfEscape(s: JsString)
    ensures Unescape(EscapeSpecials(s)) == s
  {
    if s != [] {
      UnescapeOfEscape(s[1..]);
      var t, rest := EscapeSpecials(s), EscapeSpecials(s[1..]);
      assert s == [s[0]] + s[1..];
      if Special(s[0]) {
        assert t[2..] == rest;
      } else {
        assert t[1..] == rest;
      }
    }
  }

  lemma {:induction false} DropOfEscape(s: JsString)
    ensures DropZeroWidth(EscapeSpecials(s)) == EscapeSpecials(DropZeroWidth(s))
  {
    if s != [] {
      DropOfEscape(s[1..]);
      var head := if Special(s[0]) then [BACKSLASH, s[0]] else [s[0]];
      DropConcat(head, EscapeSpecials(s[1..]));
      var seen := DropZeroWidth(s[1..]);
      if s[0] == ZERO_WIDTH {
        assert head == [ZERO_WIDTH] && head[1..] == [];
        assert DropZeroWidth(head) == [];
        assert DropZeroWidth(s) == seen;
      } else {
        DropNothing(head);
        assert DropZeroWidth(s) == [s[0]] + seen && DropZeroWidth(s)[1..] == seen;
      }
    }
  }

  /** The name a mention of everybody starts with, or nothing. */
  function CrowdWord(s: JsString): (w: JsString)
    ensures w <= s && AT !in w && ZERO_WIDTH !in w
  {
    if EVERYONE <= s then EVERYONE else if HERE <= s then HERE else []
  }

  /** `text.replace(/@(everyone|here)/g, ...)` */
  function BreakCrowd(s: JsString): JsString
    decreases |s|
  {
    if s == [] then []
    else if s[0] == AT && CrowdWord(s[1..]) != [] then
      var word := CrowdWord(s[1..]);
      [AT, ZERO_WIDTH] + word + BreakCrowd(s[1..][|word|..])
    else [s[0]] + BreakCrowd(s[1..])
  }

  /** How many units a `\\d+` takes. */
  function Digits(s: JsString): (n: nat)
    ensures n <= |s| && forall i | 0 <= i < n :: Decimal.IsDigit(s[i])
  {
    if s == [] || !Decimal.IsDigit(s[0]) then 0 else 1 + Digits(s[1..])
  }

  /** A mention written `<`, the lead, an optional mark, digits, `>`: where its digits start, or 0. */
  function MentionDigits(s: JsString, lead: CodeUnit, marks: set<CodeUnit>): (at: nat)
    ensures at > 0 ==>
              2 <= at < |s| && var n := Digits(s[at..]);
              n > 0 && at + n < |s| && s[at + n] == CLOSE && Decimal.IsDigit(s[at + n - 1])
  {
    if |s| < 3 || s[0] != OPEN || s[1] != lead then 0
    else
      var at := if s[2] in marks then 3 else 2;
      var n := Digits(s[at..]);
      assert n > 0 ==> s[at..][n - 1] == s[at + n - 1];
      if n > 0 && at + n < |s| && s[at + n] == CLOSE then at else 0
  }

  /** `text.replace(/<@[!&]?(\\d+)>/g, ...)` and `text.replace(/<#(\\d+)>/g, ...)`: the mark is lost. */
  function BreakMentions(s: JsString, lead: CodeUnit, marks: set<CodeUnit>): JsString
    decreases |s|
  {
    if s == [] then []
    else
      var at := MentionDigits(s, lead, marks);
      if at == 0 then [s[0]] + BreakMentions(s[1..], lead, marks)
      else
        var n := Digits(s[at..]);
        [OPEN, lead, ZERO_WIDTH] + s[at..at + n] + [CLOSE] + BreakMentions(s[at + n + 1..], lead, marks)
  }

  function EscapeDiscord(s: JsString): JsString {
    BreakMentions(BreakMentions(BreakCrowd(EscapeSpecials(s)), AT, {33, 38}), HASH, {})
  }

  /** No `>` but the first unit stands without a backslash before it. */
  predicate ClosesEscaped(s: JsString) {
    forall k | 0 < k < |s| :: s[k] == CLOSE ==> s[k - 1] == BACKSLASH
  }

  /** Every special character is the second half of an escape, and every escape is complete. */
  predicate AllEscaped(s: JsString) {
    if s == [] then true
    else if s[0] == BACKSLASH then |s| > 1 && Special(s[1]) && AllEscaped(s[2..])
    else !Special(s[0]) && AllEscaped(s[1..])
  }

  lemma {:induction false} EscapeEscapesAll(s: JsString)
    ensures AllEscaped(EscapeSpecials(s))
  {
    if s != [] {
      EscapeEscapesAll(s[1..]);
      var t, rest := EscapeSpecials(s), EscapeSpecials(s[1..]);
      if Special(s[0]) {
        assert t[2..] == rest;
      } else {
        assert t[1..] == rest;
      }
    }
  }

  lemma {:induction false} AllEscapedPrepend(p: JsString, s: JsString)
    requires AllEscaped(s) && forall i | 0 <= i < |p| :: !Special(p[i])
    ensures AllEscaped(p + s)
  {
    if p == [] {
      assert p + s == s;
    } else {
      AllEscapedPrepend(p[1..], s);
      assert (p + s)[1..] == p[1..] + s;
    }
  }

  lemma {:induction false} AllEscapedSuffix(p: JsString, s: JsString)
    requires AllEscaped(p + s) && forall i | 0 <= i < |p| :: !Special(p[i])
    ensures AllEscaped(s)
  {
    if p == [] {
      assert p + s == s;
    } else {
      assert (p + s)[0] == p[0] && (p + s)[1..] == p[1..] + s;
      AllEscapedSuffix(p[1..], s);
    }
  }

  lemma CrowdWordPlain(s: JsString)
    ensures forall i | 0 <= i < |CrowdWord(s)| :: !Special(CrowdWord(s)[i])
  {
  }

  lemma {:induction false} BreakCrowdKeepsEscapes(s: JsString)
    requires AllEscaped(s)
    ensures AllEscaped(BreakCrowd(s))
    decreases |s|
  {
    if s != [] {
      if s[0] == AT && CrowdWord(s[1..]) != [] {
        var word := CrowdWord(s[1..]);
        var rest := s[1..][|word|..];
        CrowdWordPlain(s[1..]);
        assert s[1..] == word + rest;
        AllEscapedSuffix(word, rest);
        BreakCrowdKeepsEscapes(rest);
        AllEscapedPrepend([AT, ZERO_WIDTH] + word, BreakCrowd(rest));
        assert [AT, ZERO_WIDTH] + word + BreakCrowd(rest) == BreakCrowd(s);
      } else if s[0] == BACKSLASH {
        BreakCrowdKeepsEscapes(s[2..]);
        assert s[1..][1..] == s[2..];
        assert BreakCrowd(s[1..]) == [s[1]] + BreakCrowd(s[2..]);
        assert BreakCrowd(s)[2..] == BreakCrowd(s[2..]);
      } else {
        BreakCrowdKeepsEscapes(s[1..]);
        assert BreakCrowd(s)[1..] == BreakCrowd(s[1..]);
      }
    }
  }

  lemma {:induction false} EscapedClosesEscaped(s: JsString)
    requires AllEscaped(s)
    ensures ClosesEscaped(s) && (s != [] ==> s[0] != CLOSE)
  {
    if s != [] {
      if s[0] == BACKSLASH {
        EscapedClosesEscaped(s[2..]);
        assert forall k | 2 <= k < |s| :: s[k] == s[2..][k - 2];
      } else {
        EscapedClosesEscaped(s[1..]);
        assert forall k | 1 <= k < |s| :: s[k] == s[1..][k - 1];
      }
    }
  }

  lemma NoMentionMatches(s: JsString, lead: CodeUnit, marks: set<CodeUnit>)
    requires ClosesEscaped(s)
    ensures MentionDigits(s, lead, marks) == 0
  {
  }

  /** The two id rewrites never fire behind the escaper, so the mark they would lose is never lost. */
  lemma {:induction false} MentionsNeverFire(s: JsString, lead: CodeUnit, marks: set<CodeUnit>)
    requires ClosesEscaped(s)
    ensures BreakMentions(s, lead, marks) == s
  {
    if s != [] {
      NoMentionMatches(s, lead, marks);
      MentionsNeverFire(s[1..], lead, marks);
      assert s == [s[0]] + s[1..];
    }
  }

  /** On unescaped text the rewrite does lose the mark: `<@!1>` comes out as `<@1>`. */
  lemma MentionRewriteLosesMark()
    ensures DropZeroWidth(BreakMentions([OPEN, AT, 33, 49, CLOSE], AT, {33, 38})) == [OPEN, AT, 49, CLOSE]
  {
    var s: JsString := [OPEN, AT, 33, 49, CLOSE];
    assert s[3..] == [49, CLOSE] && [49, CLOSE][1..] == [CLOSE];
    assert Digits([49, CLOSE]) == 1;
    assert MentionDigits(s, AT, {33, 38}) == 3;
    assert s[3..4] == [49] && s[5..] == [];
    DropConcat([OPEN, AT], [ZERO_WIDTH, 49, CLOSE]);
    DropNothing([OPEN, AT]);
    assert [ZERO_WIDTH, 49, CLOSE][1..] == [49, CLOSE];
    DropNothing([49, CLOSE]);
    assert [OPEN, AT, ZERO_WIDTH] + [49] + [CLOSE] + [] == [OPEN, AT] + [ZERO_WIDTH, 49, CLOSE];
  }

  /** What the passes over an escaped text come to. */
  lemma DiscordIsCrowdBreak(s: JsString)
    ensures EscapeDiscord(s) == BreakCrowd(EscapeSpecials(s)) && AllEscaped(EscapeDiscord(s))
  {
    var t := BreakCrowd(EscapeSpecials(s));
    EscapeEscapesAll(s);
    BreakCrowdKeepsEscapes(EscapeSpecials(s));
    EscapedClosesEscaped(t);
    MentionsNeverFire(t, AT, {33, 38});
    MentionsNeverFire(t, HASH, {});
  }

  lemma ZeroWidthGoes()
    ensures DropZeroWidth([ZERO_WIDTH]) == []
  {
    assert [ZERO_WIDTH][1..] == [];
  }

  lemma DropOfBrokenName(word: JsString, rest: JsString, broken: JsString)
    requires DropZeroWidth(broken) == DropZeroWidth(rest)
    ensures DropZeroWidth([AT, ZERO_WIDTH] + word + broken) == DropZeroWidth([AT] + (word + rest))
  {
    ZeroWidthGoes();
    hide DropZeroWidth;
    assert [AT, ZERO_WIDTH] + word + broken == [AT] + ([ZERO_WIDTH] + (word + broken));
    DropConcat([AT], [ZERO_WIDTH] + (word + broken));
    DropConcat([AT], word + rest);
    DropConcat([ZERO_WIDTH], word + broken);
    DropConcat(word, broken);
    DropConcat(word, rest);
  }

  lemma {:induction false} DropOfBreakCrowd(s: JsString)
    ensures DropZeroWidth(BreakCrowd(s)) == DropZeroWidth(s)
    decreases |s|
  {
    hide CrowdWord;
    if s != [] {
      if s[0] == AT && CrowdWord(s[1..]) != [] {
        var word := CrowdWord(s[1..]);
        var rest := s[1..][|word|..];
        DropOfBreakCrowd(rest);
        assert s == [AT] + (word + rest);
        DropOfBrokenName(word, rest, BreakCrowd(rest));
      } else {
        DropOfBreakCrowd(s[1..]);
        assert BreakCrowd(s)[1..] == BreakCrowd(s[1..]);
      }
    }
  }

  /** Dropping zero-width spaces and reading backslash escapes gives back exactly the text, for every
      text; one without zero-width spaces comes back unchanged. */
  lemma DiscordUndone(s: JsString)
    ensures Unescape(DropZeroWidth(EscapeDiscord(s))) == DropZeroWidth(s)
    ensures ZERO_WIDTH !in s ==> Unescape(DropZeroWidth(EscapeDiscord(s))) == s
  {
    DiscordIsCrowdBreak(s);
    DropOfBreakCrowd(EscapeSpecials(s));
    DropOfEscape(s);
    UnescapeOfEscape(DropZeroWidth(s));
    if ZERO_WIDTH !in s {
      DropNothing(s);
    }
  }

  /** No `@everyone` and no `@here` anywhere. */
  predicate NoCrowd(s: JsString) {
    if s == [] then true
    else !(s[0] == AT && CrowdWord(s[1..]) != []) && NoCrowd(s[1..])
  }

  lemma {:induction false} NoCrowdPrepend(p: JsString, s: JsString)
    requires NoCrowd(s) && AT !in p
    ensures NoCrowd(p + s)
  {
    if p == [] {
      assert p + s == s;
    } else {
      NoCrowdPrepend(p[1..], s);
      assert (p + s)[1..] == p[1..] + s;
    }
  }

  /** Breaking does not put a name where there was none. */
  lemma {:induction false} BreakCrowdPrefix(s: JsString, w: JsString)
    requires AT !in w && w <= BreakCrowd(s)
    ensures w <= s
  {
    if w != [] {
      assert BreakCrowd(s)[0] == w[0];
      assert BreakCrowd(s)[1..] == BreakCrowd(s[1..]);
      assert w[1..] <= BreakCrowd(s[1..]);
      BreakCrowdPrefix(s[1..], w[1..]);
      assert w == [w[0]] + w[1..] && s == [s[0]] + s[1..];
    }
  }

  lemma BrokenNameIsNone(word: JsString, rest: JsString)
    requires AT !in word && NoCrowd(rest)
    ensures NoCrowd([AT, ZERO_WIDTH] + word + rest)
  {
    var t := [AT, ZERO_WIDTH] + word + rest;
    NoCrowdPrepend([ZERO_WIDTH] + word, rest);
    assert t[1..] == [ZERO_WIDTH] + word + rest;
    assert CrowdWord(t[1..]) == [];
  }

  lemma {:induction false} CrowdNeverSurvives(s: JsString)
    ensures NoCrowd(BreakCrowd(s))
    decreases |s|
  {
    if s != [] {
      if s[0] == AT && CrowdWord(s[1..]) != [] {
        var word := CrowdWord(s[1..]);
        CrowdNeverSurvives(s[1..][|word|..]);
        BrokenNameIsNone(word, BreakCrowd(s[1..][|word|..]));
      } else {
        CrowdNeverSurvives(s[1..]);
        assert BreakCrowd(s)[1..] == BreakCrowd(s[1..]);
        if s[0] == AT {
          NoNameAppears(s[1..]);
        }
      }
    }
  }

  lemma NoNameAppears(s: JsString)
    requires CrowdWord(s) == []
    ensures CrowdWord(BreakCrowd(s)) == []
  {
    if EVERYONE <= BreakCrowd(s) {
      BreakCrowdPrefix(s, EVERYONE);
    } else if HERE <= BreakCrowd(s) {
      BreakCrowdPrefix(s, HERE);
    }
  }

  lemma DiscordMentionsNobody(s: JsString)
    ensures NoCrowd(EscapeDiscord(s))
  {
    DiscordIsCrowdBreak(s);
    CrowdNeverSurvives(EscapeSpecials(s));
  }

  // ----- Nothing more than is needed -----

  /** The characters and words the escaper is about. */
  lemma DiscordSpells(u: CodeUnit)
    ensures Special(u) <==> u in Ascii("*_~`|>[]()\\")
    ensures EVERYONE == Ascii("everyone") && HERE == Ascii("here") && [AT] == Ascii("@")
    ensures [OPEN, CLOSE, HASH, BACKSLASH] == Ascii("<>#\\")
  {
    var a := Ascii("*_~`|>[]()\\");
    assert a == [42, 95, 126, 96, 124, 62, 91, 93, 40, 41, 92];
  }

  function Specials(s: JsString): (n: nat) {
    if s == [] then 0 else (if Special(s[0]) then 1 else 0) + Specials(s[1..])
  }

  /** How often the text calls everybody. */
  function Calls(s: JsString): (n: nat) {
    if s == [] then 0 else (if s[0] == AT && CrowdWord(s[1..]) != [] then 1 else 0) + Calls(s[1..])
  }

  lemma {:induction false} EscapeGrows(s: JsString)
    ensures |EscapeSpecials(s)| == |s| + Specials(s)
    ensures Specials(s) == 0 ==> EscapeSpecials(s) == s
  {
    if s != [] {
      EscapeGrows(s[1..]);
      assert s == [s[0]] + s[1..];
    }
  }

  lemma {:induction false} CallsSkip(p: JsString, s: JsString)
    requires AT !in p
    ensures Calls(p + s) == Calls(s)
  {
    if p == [] {
      assert p + s == s;
    } else {
      CallsSkip(p[1..], s);
      assert (p + s)[1..] == p[1..] + s;
    }
  }

  lemma {:induction false} BreakCrowdGrows(s: JsString)
    ensures |BreakCrowd(s)| == |s| + Calls(s)
    ensures Calls(s) == 0 ==> BreakCrowd(s) == s
    ensures Calls(s) == 0 <==> NoCrowd(s)
    decreases |s|
  {
    hide CrowdWord;
    if s != [] {
      BreakCrowdGrows(s[1..]);
      if s[0] == AT && CrowdWord(s[1..]) != [] {
        var word := CrowdWord(s[1..]);
        var rest := s[1..][|word|..];
        assert s[1..] == word + rest;
        BreakCrowdGrows(rest);
        CallsSkip(word, rest);
      } else {
        assert s == [s[0]] + s[1..];
      }
    }
  }

  /** The escaper adds one backslash for every special character and one zero-width space for every call, and
      nothing else; a text without either is sent as it is. */
  lemma DiscordAddsOnlyNeeded(s: JsString)
    ensures |EscapeDiscord(s)| == |s| + Specials(s) + Calls(EscapeSpecials(s))
    ensures EscapeDiscord(s) == s <==> Specials(s) == 0 && NoCrowd(s)
  {
    DiscordIsCrowdBreak(s);
    EscapeGrows(s);
    BreakCrowdGrows(EscapeSpecials(s));
  }

  lemma CutInFour(s: JsString, n: nat)
    requires n + 3 <= |s|
    ensures s == [s[0], s[1]] + (s[2..2 + n] + [s[2 + n]] + s[n + 3..])
  {
  }

  lemma Regroup(lead: CodeUnit, digits: JsString, broken: JsString)
    ensures [OPEN, lead, ZERO_WIDTH] + digits + [CLOSE] + broken
         == [OPEN, lead] + ([ZERO_WIDTH] + (digits + [CLOSE] + broken))
  {
  }

  /** A mention without a mark, and what follows it. */
  lemma MentionSplits(s: JsString, lead: CodeUnit) returns (digits: JsString, rest: JsString)
    requires MentionDigits(s, lead, {}) != 0
    ensures |rest| < |s| && s == [OPEN, lead] + (digits + rest)
    ensures BreakMentions(s, lead, {}) == [OPEN, lead] + ([ZERO_WIDTH] + (digits + BreakMentions(rest, lead, {})))
  {
    MentionShape(s, lead);
    hide MentionDigits, Digits;
    var n := Digits(s[2..]);
    rest := s[2 + n + 1..];
    CutInFour(s, n);
    Regroup(lead, s[2..2 + n], BreakMentions(rest, lead, {}));
    digits := s[2..2 + n] + [CLOSE];
  }

  lemma MentionShape(s: JsString, lead: CodeUnit)
    requires MentionDigits(s, lead, {}) != 0
    ensures MentionDigits(s, lead, {}) == 2 && |s| > 2 && s[0] == OPEN && s[1] == lead
    ensures 2 + Digits(s[2..]) < |s| && s[2 + Digits(s[2..])] == CLOSE
  {
  }

  /** The rewrite of channel mentions, which have no mark, only adds zero-width spaces. */
  lemma {:induction false} ChannelMentionsKept(s: JsString, lead: CodeUnit)
    ensures DropZeroWidth(BreakMentions(s, lead, {})) == DropZeroWidth(s)
    decreases |s|
  {
    hide MentionDigits;
    if s != [] {
      if MentionDigits(s, lead, {}) == 0 {
        ChannelMentionsKept(s[1..], lead);
        assert BreakMentions(s, lead, {})[1..] == BreakMentions(s[1..], lead, {});
      } else {
        hide DropZeroWidth;
        var digits, rest := MentionSplits(s, lead);
        ChannelMentionsKept(rest, lead);
        MentionKept(lead, digits, rest, BreakMentions(rest, lead, {}));
      }
    }
  }

  lemma MentionKept(lead: CodeUnit, digits: JsString, rest: JsString, broken: JsString)
    requires DropZeroWidth(broken) == DropZeroWidth(rest)
    ensures DropZeroWidth([OPEN, lead] + ([ZERO_WIDTH] + (digits + broken)))
         == DropZeroWidth([OPEN, lead] + (digits + rest))
  {
    ZeroWidthGoes();
    hide DropZeroWidth;
    DropConcat([OPEN, lead], [ZERO_WIDTH] + (digits + broken));
    DropConcat([OPEN, lead], digits + rest);
    DropConcat([ZERO_WIDTH], digits + broken);
    DropConcat(digits, broken);
    DropConcat(digits, rest);
  }
}
