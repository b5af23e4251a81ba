/** The five chained replacements of `String.htmlToAttributedString` that let two font tags through and neutralise
    every other `<`, against a single left-to-right pass over the text. */
module HtmlEscape {

  const FONT := "<font color='#007AFF'>"
  const CLOSE := "</font>"
  const SENTINEL1 := "InstamobileHtmlStringTag1"
  const SENTINEL2 := "InstamobileHtmlStringTag2"
  const LESS_THAN := "&lt;"

  // ---------- The code ----------

  /** `replacingOccurrences(of:with:)`: left to right, without overlaps. */
  function Replaced(s: string, pattern: string, with: string): string
    requires pattern != []
  {
    if s == [] then []
    else if pattern <= s then with + Replaced(s[|pattern|..], pattern, with)
    else [s[0]] + Replaced(s[1..], pattern, with)
  }

  /** The five passes. */
  function Escaped(s: string): string {
    var pass1 := Replaced(s, FONT, SENTINEL1);
    var pass2 := Replaced(pass1, CLOSE, SENTINEL2);
    var pass3 := Replaced(pass2, "<", LESS_THAN);
    var pass4 := Replaced(pass3, SENTINEL1, FONT);
    Replaced(pass4, SENTINEL2, CLOSE)
  }

  // ---------- What it is meant to do ----------

  /** One pass: keep the two allowed tags, turn every other `<` into `&lt;`. */
  function OnePass(s: string): string {
    if s == [] then []
    else if FONT <= s then FONT + OnePass(s[|FONT|..])
    else if CLOSE <= s then CLOSE + OnePass(s[|CLOSE|..])
    else (if s[0] == '<' then LESS_THAN else [s[0]]) + OnePass(s[1..])
  }

  predicate Contains(s: string, p: string) {
    p <= s || (s != [] && Contains(s[1..], p))
  }

  /** Every `<` of `s` is the first character of one of two tags. */
  predicate OnlyTags(s: string, first: string, second: string) {
    forall i :: 0 <= i < |s| && s[i] == '<' ==> first <= s[i..] || second <= s[i..]
  }

  // ---------- Texts as token lists, shown in different ways ----------

  datatype Token = Letter(c: char) | First | Second

  /** How the two tags and the letter `<` are written in one of the intermediate texts. */
  datatype Look = Look(first: string, second: string, lt: string) {
    predicate Valid() {
      first != [] && second != [] && lt != []
    }

    function Shown(t: Token): string {
      match t
      case Letter(c) => if c == '<' then lt else [c]
      case First => first
      case Second => second
    }

    function With(t: Token, s: string): Look {
      match t
      case Letter(_) => this.(lt := s)
      case First => this.(first := s)
      case Second => this.(second := s)
    }
  }

  function Rendered(ts: seq<Token>, look: Look): string {
    if ts == [] then [] else look.Shown(ts[0]) + Rendered(ts[1..], look)
  }

  function Tokens(s: string, first: string, second: string): seq<Token>
    requires first != [] && second != []
  {
    if s == [] then []
    else if first <= s then [First] + Tokens(s[|first|..], first, second)
    else if second <= s then [Second] + Tokens(s[|second|..], first, second)
    else [Letter(s[0])] + Tokens(s[1..], first, second)
  }

  /** How many characters the first token of `s` stands for. */
  function Width(s: string, first: string, second: string): (n: nat)
    requires s != [] && first != [] && second != []
    ensures 1 <= n <= |s|
  {
    if first <= s then |first| else if second <= s then |second| else 1
  }

  /** Tokenising loses nothing. */
  lemma {:induction false} TokensRender(s: string, first: string, second: string)
    requires first != [] && second != []
    ensures Rendered(Tokens(s, first, second), Look(first, second, "<")) == s
  {
    if s != [] {
      var n := Width(s, first, second);
      var look, ts, rest := Look(first, second, "<"), Tokens(s, first, second), Tokens(s[n..], first, second);
      TokensRender(s[n..], first, second);
      assert ts[1..] == rest;
      assert look.Shown(ts[0]) == s[..n];
      assert Rendered(ts, look) == s[..n] + s[n..];
    }
  }

  /** No letter token stands where a tag begins. */
  lemma {:induction false} TokensAvoidTags(s: string, first: string, second: string)
    requires first != [] && second != []
    ensures LettersAvoid(Tokens(s, first, second), Look(first, second, "<"), first)
    ensures LettersAvoid(Tokens(s, first, second), Look(first, second, "<"), second)
  {
    if s != [] {
      var n := Width(s, first, second);
      TokensAvoidTags(s[n..], first, second);
      TokensRender(s, first, second);
      assert Tokens(s, first, second)[1..] == Tokens(s[n..], first, second);
    }
  }

  lemma {:induction false} OnePassRenders(s: string)
    ensures OnePass(s) == Rendered(Tokens(s, FONT, CLOSE), Look(FONT, CLOSE, LESS_THAN))
  {
    if s != [] {
      var n := if FONT <= s then |FONT| else if CLOSE <= s then |CLOSE| else 1;
      OnePassRenders(s[n..]);
    }
  }

  /** No letter token of `ts`, as `look` shows it, is where an occurrence of `p` begins. */
  ghost predicate LettersAvoid(ts: seq<Token>, look: Look, p: string) {
    ts == [] || ((ts[0].Letter? ==> !(p <= Rendered(ts, look))) && LettersAvoid(ts[1..], look, p))
  }

  // ---------- Where a pattern can begin ----------

  /** No occurrence of `p` in `x + y` begins inside `x`. */
  ghost predicate Unseen(x: string, y: string, p: string) {
    forall k :: 0 <= k < |x| ==> !(p <= x[k..] + y)
  }

  lemma UnseenTail(x: string, y: string, p: string)
    requires x != [] && Unseen(x, y, p)
    ensures Unseen(x[1..], y, p) && !(p <= x + y)
  {
    assert x[0..] == x;
    forall k | 0 <= k < |x[1..]| ensures !(p <= x[1..][k..] + y) {
      assert x[1..][k..] == x[k + 1..];
    }
  }

  lemma {:induction false} ReplaceSkips(x: string, y: string, p: string, with: string)
    requires p != [] && Unseen(x, y, p)
    ensures Replaced(x + y, p, with) == x + Replaced(y, p, with)
  {
    if x == [] {
      assert x + y == y;
    } else {
      UnseenTail(x, y, p);
      ReplaceSkips(x[1..], y, p, with);
      assert (x + y)[0] == x[0] && (x + y)[1..] == x[1..] + y;
      calc {
        Replaced(x + y, p, with);
        [x[0]] + Replaced(x[1..] + y, p, with);
        [x[0]] + (x[1..] + Replaced(y, p, with));
        ([x[0]] + x[1..]) + Replaced(y, p, with);
        { assert [x[0]] + x[1..] == x; }
        x + Replaced(y, p, with);
      }
    }
  }

  lemma {:induction false} ContainsSkips(x: string, y: string, p: string)
    requires p != []
    ensures Contains(y, p) ==> Contains(x + y, p)
    ensures Unseen(x, y, p) && !Contains(y, p) ==> !Contains(x + y, p)
  {
    if x == [] {
      assert x + y == y;
    } else {
      assert (x + y)[1..] == x[1..] + y;
      ContainsSkips(x[1..], y, p);
      if Unseen(x, y, p) {
        UnseenTail(x, y, p);
      }
    }
  }

  /** Only the tokens equal to `mark` are where an occurrence of `p` begins. */
  ghost predicate OnlyAt(ts: seq<Token>, mark: Token, look: Look, p: string) {
    ts == [] ||
    ((ts[0] != mark ==> Unseen(look.Shown(ts[0]), Rendered(ts[1..], look), p)) && OnlyAt(ts[1..], mark, look, p))
  }

  /** Then replacing `p` re-shows exactly those tokens. */
  lemma {:induction false} ReplaceReshows(ts: seq<Token>, mark: Token, look: Look, with: string)
    requires look.Valid() && (mark.Letter? ==> mark.c == '<') && OnlyAt(ts, mark, look, look.Shown(mark))
    ensures Replaced(Rendered(ts, look), look.Shown(mark), with) == Rendered(ts, look.With(mark, with))
  {
    if ts != [] {
      var x, y, p := look.Shown(ts[0]), Rendered(ts[1..], look), look.Shown(mark);
      ReplaceReshows(ts[1..], mark, look, with);
      if ts[0] == mark {
        assert p <= x + y && (x + y)[|p|..] == y;
      } else {
        ReplaceSkips(x, y, p, with);
      }
    }
  }

  predicate Lacks(s: string, c: char) {
    forall i :: 0 <= i < |s| ==> s[i] != c
  }

  /** `p` cannot be mistaken for anything `look` writes: its tail avoids all opening characters. */
  predicate TailAvoids(p: string, look: Look) {
    && p != [] && look.Valid()
    && Lacks(p[1..], look.first[0]) && Lacks(p[1..], look.second[0]) && Lacks(p[1..], look.lt[0])
  }

  /** A word that avoids all opening characters is spelled by letter tokens, so it shows alike in any look. */
  lemma {:induction false} WordTransfers(q: string, ts: seq<Token>, look: Look, other: Look)
    requires look.Valid() && Lacks(q, look.first[0]) && Lacks(q, look.second[0]) && Lacks(q, look.lt[0])
    requires q <= Rendered(ts, look)
    ensures q <= Rendered(ts, other) || '<' in q
  {
    if q != [] {
      assert Rendered(ts, look)[0] == q[0] && look.Shown(ts[0])[0] == q[0];
      assert ts[0].Letter? && ts[0].c == q[0];
      assert Rendered(ts, look)[1..] == Rendered(ts[1..], look);
      WordTransfers(q[1..], ts[1..], look, other);
    }
  }

  /** No occurrence of `p` begins in a string that does not tolerate its first character. */
  lemma LacksIsUnseen(x: string, y: string, p: string)
    requires p != [] && Lacks(x, p[0])
    ensures Unseen(x, y, p)
  {}

  /** Two incomparable patterns of which the second has the first's opening character only in front. */
  lemma IncomparableIsUnseen(x: string, y: string, p: string)
    requires p != [] && x != [] && Lacks(x[1..], p[0]) && !(p <= x) && !(x <= p)
    ensures Unseen(x, y, p)
  {}

  /** Letters that avoid `p` in one look avoid it in another. */
  lemma LetterUnseen(ts: seq<Token>, look: Look, base: Look, p: string)
    requires TailAvoids(p, look) && Lacks(p[1..], '<')
    requires look.lt == base.lt == "<" || Lacks(look.lt, p[0])
    requires ts != [] && ts[0].Letter? && !(p <= Rendered(ts, base))
    ensures Unseen(look.Shown(ts[0]), Rendered(ts[1..], look), p)
  {
    var x, y := look.Shown(ts[0]), Rendered(ts[1..], look);
    if Lacks(x, p[0]) {
      LacksIsUnseen(x, y, p);
    } else {
      assert x == base.Shown(ts[0]) == [ts[0].c] && p[0] == ts[0].c;
      assert x[0..] + y == x + y;
      if p <= x + y {
        assert p[1..] <= (x + y)[1..] == y;
        WordTransfers(p[1..], ts[1..], look, base);
        assert false;
      }
    }
  }

  /** The side conditions under which a pass that looks for `mark` finds nothing else. */
  ghost predicate PassFits(mark: Token, look: Look, base: Look, p: string) {
    && TailAvoids(p, look) && Lacks(p[1..], '<')
    && (look.lt == base.lt == "<" || Lacks(look.lt, p[0]))
    && (mark == First || Lacks(look.first, p[0]))
    && (mark == Second || Lacks(look.second, p[0]) ||
        (Lacks(look.second[1..], p[0]) && !(p <= look.second) && !(look.second <= p)))
  }

  lemma {:induction false} PassFindsOnly(ts: seq<Token>, mark: Token, look: Look, base: Look, p: string)
    requires PassFits(mark, look, base, p) && LettersAvoid(ts, base, p)
    ensures OnlyAt(ts, mark, look, p)
  {
    if ts != [] {
      PassFindsOnly(ts[1..], mark, look, base, p);
      var x, y := look.Shown(ts[0]), Rendered(ts[1..], look);
      if ts[0].Letter? {
        LetterUnseen(ts, look, base, p);
      } else if ts[0] != mark {
        if Lacks(x, p[0]) {
          LacksIsUnseen(x, y, p);
        } else {
          IncomparableIsUnseen(x, y, p);
        }
      }
    }
  }

  lemma {:induction false} AvoidedIfAbsent(ts: seq<Token>, look: Look, p: string)
    requires p != [] && !Contains(Rendered(ts, look), p)
    ensures LettersAvoid(ts, look, p)
  {
    if ts != [] {
      ContainsSkips(look.Shown(ts[0]), Rendered(ts[1..], look), p);
      AvoidedIfAbsent(ts[1..], look, p);
    }
  }

  // ---------- The five passes ----------

  const PLAIN := Look(FONT, CLOSE, "<")

  lemma FontFits()
    ensures PassFits(First, PLAIN, PLAIN, FONT)
  {
    TagsOpenOnce();
    assert FONT[1] != CLOSE[1];
  }

  lemma CloseFits()
    ensures PassFits(Second, Look(SENTINEL1, CLOSE, "<"), PLAIN, CLOSE)
  {
    SentinelLetters(SENTINEL1);
    TagsLackOpening();
    TagsOpenOnce();
  }

  predicate IsSentinel(p: string) {
    |p| == 25 && p[..24] == "InstamobileHtmlStringTag" && (p[24] == '1' || p[24] == '2')
  }

  lemma SentinelLacks(p: string, c: char)
    requires IsSentinel(p) && (c == '<' || c == '&')
    ensures Lacks(p, c)
  {
    forall i | 0 <= i < |p| ensures p[i] != c {
      if i < 24 {
        assert p[i] == p[..24][i];
      }
    }
  }

  lemma SentinelOpensOnce(p: string)
    requires IsSentinel(p)
    ensures Lacks(p[1..], 'I') && p[0] == 'I'
  {
    assert p[0] == p[..24][0];
    forall i | 0 <= i < |p[1..]| ensures p[1..][i] != 'I' {
      if i < 23 {
        assert p[1..][i] == p[..24][i + 1];
      }
    }
  }

  lemma SentinelLetters(p: string)
    requires p == SENTINEL1 || p == SENTINEL2
    ensures Lacks(p[1..], 'I') && Lacks(p, '<') && Lacks(p, '&') && p[0] == 'I'
  {
    SentinelOpensOnce(p);
    SentinelLacks(p, '<');
    SentinelLacks(p, '&');
  }

  lemma SentinelsDiffer()
    ensures !(SENTINEL1 <= SENTINEL2) && !(SENTINEL2 <= SENTINEL1)
  {
    assert SENTINEL1[24] != SENTINEL2[24];
  }

  lemma TagsLackOpening()
    ensures Lacks(FONT, 'I') && Lacks(CLOSE, 'I') && Lacks(LESS_THAN, 'I')
  {}

  lemma TagsOpenOnce()
    ensures Lacks(FONT[1..], '<') && Lacks(CLOSE[1..], '<')
  {}

  lemma Sentinel1Fits(lt: string, base: Look)
    requires lt == LESS_THAN || (lt == "<" && base.lt == "<")
    ensures PassFits(First, Look(SENTINEL1, SENTINEL2, lt), base, SENTINEL1)
  {
    SentinelLetters(SENTINEL1);
    SentinelLetters(SENTINEL2);
    SentinelsDiffer();
    TagsLackOpening();
  }

  lemma Sentinel2Fits(lt: string, base: Look)
    requires lt == LESS_THAN || (lt == "<" && base.lt == "<")
    ensures PassFits(Second, Look(FONT, SENTINEL2, lt), base, SENTINEL2)
  {
    SentinelLetters(SENTINEL1);
    SentinelLetters(SENTINEL2);
    SentinelsDiffer();
    TagsLackOpening();
  }

  lemma SentinelFitsTags(lt: string, base: Look, p: string)
    requires lt == LESS_THAN || lt == "<"
    requires p == SENTINEL1 || p == SENTINEL2
    ensures PassFits(Letter('<'), Look(FONT, CLOSE, lt), base, p)
  {
    SentinelLetters(SENTINEL1);
    SentinelLetters(SENTINEL2);
    SentinelsDiffer();
    TagsLackOpening();
  }

  /** Passes one to three, on a text without restrictions. */
  lemma FirstThreePasses(s: string)
    ensures Replaced(Replaced(Replaced(s, FONT, SENTINEL1), CLOSE, SENTINEL2), "<", LESS_THAN)
            == Rendered(Tokens(s, FONT, CLOSE), Look(SENTINEL1, SENTINEL2, LESS_THAN))
  {
    var ts := Tokens(s, FONT, CLOSE);
    TokensRender(s, FONT, CLOSE);
    TokensAvoidTags(s, FONT, CLOSE);
    FontFits();
    PassFindsOnly(ts, First, PLAIN, PLAIN, FONT);
    ReplaceReshows(ts, First, PLAIN, SENTINEL1);
    CloseFits();
    PassFindsOnly(ts, Second, Look(SENTINEL1, CLOSE, "<"), PLAIN, CLOSE);
    ReplaceReshows(ts, Second, Look(SENTINEL1, CLOSE, "<"), SENTINEL2);
    LessThanOnlyAtLetters(ts);
    ReplaceReshows(ts, Letter('<'), Look(SENTINEL1, SENTINEL2, "<"), LESS_THAN);
  }

  lemma {:induction false} LessThanOnlyAtLetters(ts: seq<Token>)
    ensures OnlyAt(ts, Letter('<'), Look(SENTINEL1, SENTINEL2, "<"), "<")
  {
    if ts != [] {
      LessThanOnlyAtLetters(ts[1..]);
      var look := Look(SENTINEL1, SENTINEL2, "<");
      SentinelLetters(SENTINEL1);
      SentinelLetters(SENTINEL2);
      if ts[0] != Letter('<') {
        LacksIsUnseen(look.Shown(ts[0]), Rendered(ts[1..], look), "<");
      }
    }
  }

  /** Passes four and five, on a text whose letter tokens do not begin a sentinel. */
  lemma LastTwoPasses(ts: seq<Token>, lt: string, base: Look)
    requires lt == LESS_THAN || (lt == "<" && base.lt == "<")
    requires LettersAvoid(ts, base, SENTINEL1) && LettersAvoid(ts, base, SENTINEL2)
    ensures Replaced(Replaced(Rendered(ts, Look(SENTINEL1, SENTINEL2, lt)), SENTINEL1, FONT), SENTINEL2, CLOSE)
            == Rendered(ts, Look(FONT, CLOSE, lt))
  {
    Sentinel1Fits(lt, base);
    PassFindsOnly(ts, First, Look(SENTINEL1, SENTINEL2, lt), base, SENTINEL1);
    ReplaceReshows(ts, First, Look(SENTINEL1, SENTINEL2, lt), FONT);
    Sentinel2Fits(lt, base);
    PassFindsOnly(ts, Second, Look(FONT, SENTINEL2, lt), base, SENTINEL2);
    ReplaceReshows(ts, Second, Look(FONT, SENTINEL2, lt), CLOSE);
  }

  // ---------- Main results ----------

  predicate HasSentinel(s: string) {
    Contains(s, SENTINEL1) || Contains(s, SENTINEL2)
  }

  lemma EscapedIsOnePass(s: string)
    requires !HasSentinel(s)
    ensures Escaped(s) == OnePass(s)
  {
    var ts := Tokens(s, FONT, CLOSE);
    FirstThreePasses(s);
    TokensRender(s, FONT, CLOSE);
    AvoidedIfAbsent(ts, PLAIN, SENTINEL1);
    AvoidedIfAbsent(ts, PLAIN, SENTINEL2);
    LastTwoPasses(ts, LESS_THAN, PLAIN);
    OnePassRenders(s);
  }

  predicate NoLessThan(ts: seq<Token>) {
    Letter('<') !in ts
  }

  lemma {:induction false} ThirdPassClears(s: string)
    ensures Lacks(Replaced(s, "<", LESS_THAN), '<')
  {
    if s != [] {
      ThirdPassClears(s[1..]);
      assert "<" <= s <==> s[0] == '<';
      if s[0] == '<' {
        assert s[|"<"|..] == s[1..];
      }
    }
  }

  lemma {:induction false} ClearedTokens(s: string, first: string, second: string)
    requires first != [] && second != [] && Lacks(s, '<')
    ensures NoLessThan(Tokens(s, first, second))
  {
    if s != [] {
      ClearedTokens(s[Width(s, first, second)..], first, second);
    }
  }

  /** After pass three a text is a list of sentinels and letters other than `<`; the last two passes only re-show it. */
  lemma EscapedRenders(s: string) returns (ts: seq<Token>)
    ensures Escaped(s) == Rendered(ts, PLAIN) && NoLessThan(ts)
    ensures LettersAvoid(ts, Look(SENTINEL1, SENTINEL2, "<"), SENTINEL1)
    ensures LettersAvoid(ts, Look(SENTINEL1, SENTINEL2, "<"), SENTINEL2)
  {
    var cleared := Replaced(Replaced(Replaced(s, FONT, SENTINEL1), CLOSE, SENTINEL2), "<", LESS_THAN);
    ThirdPassClears(Replaced(Replaced(s, FONT, SENTINEL1), CLOSE, SENTINEL2));
    ts := Tokens(cleared, SENTINEL1, SENTINEL2);
    ClearedTokens(cleared, SENTINEL1, SENTINEL2);
    TokensRender(cleared, SENTINEL1, SENTINEL2);
    TokensAvoidTags(cleared, SENTINEL1, SENTINEL2);
    LastTwoPasses(ts, "<", Look(SENTINEL1, SENTINEL2, "<"));
  }

  lemma {:induction false} PlainShowsTags(ts: seq<Token>, first: string, second: string)
    requires NoLessThan(ts) && first != [] && second != [] && Lacks(first[1..], '<') && Lacks(second[1..], '<')
    ensures OnlyTags(Rendered(ts, Look(first, second, "<")), first, second)
  {
    if ts != [] {
      var look := Look(first, second, "<");
      PlainShowsTags(ts[1..], first, second);
      var x, y := look.Shown(ts[0]), Rendered(ts[1..], look);
      forall k | 1 <= k < |x| ensures x[k] != '<' {
        assert x[k] == x[1..][k - 1];
      }
      forall i | 0 <= i < |x + y| && (x + y)[i] == '<' ensures first <= (x + y)[i..] || second <= (x + y)[i..] {
        if i < |x| {
          assert (x + y)[0..] == x + y;
        } else {
          assert (x + y)[i..] == y[i - |x|..];
        }
      }
    }
  }

  /** What the single pass does to the beginning of a text, tag by tag and character by character. */
  lemma OnePassStep(t: string, c: char)
    ensures OnePass("<font color='#007AFF'>" + t) == "<font color='#007AFF'>" + OnePass(t)
    ensures OnePass("</font>" + t) == "</font>" + OnePass(t)
    ensures c != '<' ==> OnePass([c] + t) == [c] + OnePass(t)
    ensures !(FONT <= "<" + t) && !(CLOSE <= "<" + t) ==> OnePass("<" + t) == "&lt;" + OnePass(t)
  {
    assert (FONT + t)[|FONT|..] == t && (CLOSE + t)[|CLOSE|..] == t;
    assert ([c] + t)[1..] == t && ("<" + t)[1..] == t;
    assert FONT[1] == 'f' && CLOSE[1] == '/';
    assert c != '<' ==> !(FONT <= [c] + t) && !(CLOSE <= [c] + t) by {
      assert FONT[0] == '<' && CLOSE[0] == '<' && ([c] + t)[0] == c;
    }
  }

  /** For every text whatever, sentinels included, each `<` that comes out opens an allowed tag. */
  lemma EscapedHasOnlyAllowedTags(s: string)
    ensures OnlyTags(Escaped(s), "<font color='#007AFF'>", "</font>")
  {
    var ts := EscapedRenders(s);
    TagsOpenOnce();
    PlainShowsTags(ts, FONT, CLOSE);
  }

  /** No sentinel comes out of the five passes. */
  lemma EscapedHasNoSentinel(s: string)
    ensures !HasSentinel(Escaped(s))
  {
    var ts := EscapedRenders(s);
    var base := Look(SENTINEL1, SENTINEL2, "<");
    SentinelFitsTags("<", base, SENTINEL1);
    SentinelFitsTags("<", base, SENTINEL2);
    FoundNowhere(ts, PLAIN, base, SENTINEL1);
    FoundNowhere(ts, PLAIN, base, SENTINEL2);
  }

  /** A pattern that no letter token begins in one look does not occur in a look whose tags lack its first character. */
  lemma {:induction false} FoundNowhere(ts: seq<Token>, look: Look, base: Look, p: string)
    requires PassFits(Letter('<'), look, base, p) && LettersAvoid(ts, base, p)
    ensures !Contains(Rendered(ts, look), p)
  {
    if ts != [] {
      var x, y := look.Shown(ts[0]), Rendered(ts[1..], look);
      FoundNowhere(ts[1..], look, base, p);
      if ts[0].Letter? {
        LetterUnseen(ts, look, base, p);
      } else if Lacks(x, p[0]) {
        LacksIsUnseen(x, y, p);
      } else {
        IncomparableIsUnseen(x, y, p);
      }
      ContainsSkips(x, y, p);
    }
  }

  /** The single pass keeps every sentinel of the text. */
  lemma OnePassKeepsSentinels(s: string, p: string)
    requires p == SENTINEL1 || p == SENTINEL2
    ensures Contains(s, p) ==> Contains(OnePass(s), p)
  {
    var ts, look := Tokens(s, FONT, CLOSE), Look(FONT, CLOSE, LESS_THAN);
    OnePassRenders(s);
    TokensRender(s, FONT, CLOSE);
    if !Contains(OnePass(s), p) {
      AvoidedIfAbsent(ts, look, p);
      SentinelFitsTags("<", look, p);
      FoundNowhere(ts, PLAIN, look, p);
    }
  }

  /** The exact condition: the chain does the single pass if and only if the text holds neither sentinel. */
  lemma EscapedIsOnePassExactly(s: string)
    ensures Escaped(s) == OnePass(s) <==> !HasSentinel(s)
  {
    if HasSentinel(s) {
      OnePassKeepsSentinels(s, SENTINEL1);
      OnePassKeepsSentinels(s, SENTINEL2);
      EscapedHasNoSentinel(s);
    } else {
      EscapedIsOnePass(s);
    }
  }
}
