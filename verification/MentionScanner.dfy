/** `NSAttributedString.fetchAttributedText`: coloured runs that name a tag user are put back into markup. The text is a
    sequence of characters, each coloured or not. */
module MentionScanner {
  import opened Options
  import opened Characters
  import EditDistance
  import Html = HtmlEscape

  datatype Cell = Cell(c: char, coloured: bool)

  function Text(cells: seq<Cell>): string {
    if cells == [] then [] else [cells[0].c] + Text(cells[1..])
  }

  // ---------- What is written ----------

  /** The output as the scanner means it: plain characters, and users in markup. */
  datatype Piece = Letter(c: char) | Mention(user: string)

  function Markup(user: string): string {
    Html.FONT + user + Html.CLOSE
  }

  function WrittenPiece(p: Piece): string {
    if p.Letter? then [p.c] else Markup(p.user)
  }

  function Written(ps: seq<Piece>): string {
    if ps == [] then [] else WrittenPiece(ps[0]) + Written(ps[1..])
  }

  function ErasedPiece(p: Piece): string {
    if p.Letter? then [p.c] else p.user
  }

  /** The output with the inserted markup erased. */
  function Erased(ps: seq<Piece>): string {
    if ps == [] then [] else ErasedPiece(ps[0]) + Erased(ps[1..])
  }

  function Letters(s: string): seq<Piece> {
    if s == [] then [] else [Letter(s[0])] + Letters(s[1..])
  }

  lemma {:induction false} WrittenConcat(a: seq<Piece>, b: seq<Piece>)
    ensures Written(a + b) == Written(a) + Written(b)
  {
    if a == [] {
      assert a + b == b;
    } else {
      assert (a + b)[0] == a[0] && (a + b)[1..] == a[1..] + b;
      WrittenConcat(a[1..], b);
      assert WrittenPiece(a[0]) + (Written(a[1..]) + Written(b)) == (WrittenPiece(a[0]) + Written(a[1..])) + Written(b);
    }
  }

  lemma {:induction false} ErasedConcat(a: seq<Piece>, b: seq<Piece>)
    ensures Erased(a + b) == Erased(a) + Erased(b)
  {
    if a == [] {
      assert a + b == b;
    } else {
      assert (a + b)[0] == a[0] && (a + b)[1..] == a[1..] + b;
      ErasedConcat(a[1..], b);
      assert ErasedPiece(a[0]) + (Erased(a[1..]) + Erased(b)) == (ErasedPiece(a[0]) + Erased(a[1..])) + Erased(b);
    }
  }

  lemma {:induction false} LettersShow(s: string)
    ensures Written(Letters(s)) == s && Erased(Letters(s)) == s
    ensures forall p :: p in Letters(s) ==> p.Letter?
  {
    if s != [] {
      LettersShow(s[1..]);
    }
  }

  lemma ThenPlain(ps: seq<Piece>, rest: string)
    ensures Written(ps + Letters(rest)) == Written(ps) + rest
    ensures Erased(ps + Letters(rest)) == Erased(ps) + rest
  {
    LettersShow(rest);
    WrittenConcat(ps, Letters(rest));
    ErasedConcat(ps, Letters(rest));
  }

  /** A user in markup and then plain characters, after what is written already. */
  function WithMention(ps: seq<Piece>, u: string, rest: string): seq<Piece> {
    ps + ([Mention(u)] + Letters(rest))
  }

  lemma MentionWritten(ps: seq<Piece>, u: string, rest: string)
    ensures Written(WithMention(ps, u, rest)) == Written(ps) + (Markup(u) + rest)
  {
    WrittenConcat(ps, [Mention(u)] + Letters(rest));
    assert ([Mention(u)] + Letters(rest))[1..] == Letters(rest);
    LettersShow(rest);
  }

  lemma MentionErased(ps: seq<Piece>, u: string, rest: string)
    ensures Erased(WithMention(ps, u, rest)) == Erased(ps) + (u + rest)
  {
    ErasedConcat(ps, [Mention(u)] + Letters(rest));
    assert ([Mention(u)] + Letters(rest))[1..] == Letters(rest);
    LettersShow(rest);
  }

  lemma EndsWithLetter(ps: seq<Piece>, c: char)
    ensures Written(ps + [Letter(c)]) == Written(ps) + [c]
    ensures Erased(ps + [Letter(c)]) == Erased(ps) + [c]
  {
    WrittenConcat(ps, [Letter(c)]);
    ErasedConcat(ps, [Letter(c)]);
    assert [c] + "" == [c];
  }

  // ---------- Matching a run against the users ----------

  predicate Matches(run: string, user: string) {
    Trimmed(run) == Trimmed(user) != []
  }

  function FirstMatch(run: string, users: seq<string>): (r: Option<string>)
    ensures r.Some? ==> r.value in users && Matches(run, r.value)
    ensures r.None? ==> forall u :: u in users ==> !Matches(run, u)
  {
    if users == [] then None
    else if Matches(run, users[0]) then Some(users[0])
    else FirstMatch(run, users[1..])
  }

  /** The `filter { … == 1.0 }.first` of the source. */
  method FindFirstMatch(run: string, users: seq<string>) returns (r: Option<string>)
    ensures r == FirstMatch(run, users)
  {
    for i := 0 to |users|
      invariant FirstMatch(run, users) == FirstMatch(run, users[i..])
    {
      var score := EditDistance.LevenshteinDistanceScore(run, users[i], s => s, false, true);
      if score == EditDistance.Value(1.0) {
        return Some(users[i]);
      }
    }
    r := None;
  }

  /** `replacingOccurrences(of: user, with: "")` where `user` matched, so it is not empty. */
  function Removed(run: string, user: string): string
    requires user != []
  {
    Html.Replaced(run, user, "")
  }

  // ---------- The code ----------

  ghost predicate EndsInLetter(ps: seq<Piece>) {
    ps == [] || ps[|ps| - 1].Letter?
  }

  function LastOrAt(ps: seq<Piece>): char
    requires EndsInLetter(ps)
  {
    if ps == [] then '@' else ps[|ps| - 1].c
  }

  /** The end of a coloured run; `None` is `removeLast` on an empty string, which traps. */
  function Flushed(ps: seq<Piece>, run: string, users: seq<string>): Option<seq<Piece>>
    requires EndsInLetter(ps)
  {
    match FirstMatch(run, users)
    case Some(u) => Some(WithMention(ps, u, Removed(run, u)))
    case None =>
      var check := [LastOrAt(ps)] + run;
      match FirstMatch(check, users)
      case None => Some(ps + Letters(run))
      case Some(u) => if ps == [] then None else Some(WithMention(ps[..|ps| - 1], u, Removed(check, u)))
  }

  /** What is left to do with `cells` when `ps` is written and `run` is the run being collected. */
  function Scan(cells: seq<Cell>, users: seq<string>, ps: seq<Piece>, run: string): Option<seq<Piece>>
    requires EndsInLetter(ps)
  {
    if cells == [] then Some(ps)
    else if cells[0].coloured then
      if |cells| == 1 then Flushed(ps, run + [cells[0].c], users)
      else Scan(cells[1..], users, ps, run + [cells[0].c])
    else
      match (if run == [] then Some(ps) else Flushed(ps, run, users))
      case None => None
      case Some(flushed) => Scan(cells[1..], users, flushed + [Letter(cells[0].c)], [])
  }

  method Flush(allSubstrings: string, run: string, users: seq<string>, ghost ps: seq<Piece>) returns (r: Option<string>)
    requires EndsInLetter(ps) && allSubstrings == Written(ps)
    ensures r.Some? <==> Flushed(ps, run, users).Some?
    ensures r.Some? ==> r.value == Written(Flushed(ps, run, users).value)
    ensures r.Some? ==> Users(Flushed(ps, run, users).value) == Users(ps) + NamedBy(Run(Before(ps), run), users)
  {
    ghost var init := if ps == [] then [] else ps[..|ps| - 1];
    if ps != [] {
      assert ps == init + [Letter(LastOrAt(ps))];
      EndsWithLetter(init, LastOrAt(ps));
    }
    var user := FindFirstMatch(run, users);
    match user {
      case Some(u) =>
        r := Some(allSubstrings + (Markup(u) + Html.Replaced(run, u, "")));
        MentionWritten(ps, u, Removed(run, u));
      case None =>
        var check := [if allSubstrings == [] then '@' else allSubstrings[|allSubstrings| - 1]] + run;
        user := FindFirstMatch(check, users);
        match user {
          case Some(u) =>
            if allSubstrings == [] {
              r := None;
            } else {
              r := Some(allSubstrings[..|allSubstrings| - 1] + (Markup(u) + Html.Replaced(check, u, "")));
              MentionWritten(init, u, Removed(check, u));
            }
          case None =>
            r := Some(allSubstrings + run);
            ThenPlain(ps, run);
        }
    }
    FlushNames(ps, run, users);
  }

  // ---------- The runs of a text, and when the scanner keeps it ----------

  /** A maximal coloured run and the plain character in front of it. */
  datatype Run = Run(before: Option<char>, text: string)

  function RunsFrom(cells: seq<Cell>, before: Option<char>, run: string): seq<Run> {
    if cells == [] then (if run == [] then [] else [Run(before, run)])
    else if cells[0].coloured then RunsFrom(cells[1..], before, run + [cells[0].c])
    else (if run == [] then [] else [Run(before, run)]) + RunsFrom(cells[1..], Some(cells[0].c), [])
  }

  function Runs(cells: seq<Cell>): seq<Run> {
    RunsFrom(cells, None, [])
  }

  /** The run with the character in front drawn in, or `@` at the start of the text. */
  function Extended(r: Run): string {
    [if r.before.None? then '@' else r.before.value] + r.text
  }

  /** The characters a run's mention replaces, and the user it names. */
  function Chosen(r: Run, users: seq<string>): Option<(string, string)> {
    match FirstMatch(r.text, users)
    case Some(u) => Some((r.text, u))
    case None =>
      match FirstMatch(Extended(r), users)
      case Some(u) => Some((Extended(r), u))
      case None => None
  }

  /** The run opens the text, names nobody by itself, and names somebody after an `@` that is not there. */
  predicate Traps(r: Run, users: seq<string>) {
    r.before.None? && FirstMatch(r.text, users).None? && FirstMatch(Extended(r), users).Some?
  }

  predicate ChosenOccurs(r: Run, users: seq<string>) {
    var chosen := Chosen(r, users);
    chosen.Some? ==> Html.Contains(chosen.value.0, chosen.value.1)
  }

  predicate ChosenLeads(r: Run, users: seq<string>) {
    var chosen := Chosen(r, users);
    chosen.Some? ==> chosen.value.1 <= chosen.value.0
  }

  ghost predicate SomeRunTraps(rs: seq<Run>, users: seq<string>) {
    exists r :: r in rs && Traps(r, users)
  }

  ghost predicate AllOccur(rs: seq<Run>, users: seq<string>) {
    forall r :: r in rs ==> ChosenOccurs(r, users)
  }

  ghost predicate AllLead(rs: seq<Run>, users: seq<string>) {
    forall r :: r in rs ==> ChosenLeads(r, users)
  }

  // ---------- Replacing a matched user ----------

  lemma {:induction false} FirstIndex(s: string, p: string) returns (i: nat)
    requires p != [] && Html.Contains(s, p)
    ensures i < |s| && p <= s[i..]
    ensures forall j :: 0 <= j < i ==> !(p <= s[j..])
  {
    assert s[0..] == s;
    if p <= s {
      i := 0;
    } else {
      var k := FirstIndex(s[1..], p);
      i := k + 1;
      forall j | 0 <= j < |s| ensures j > 0 ==> s[1..][j - 1..] == s[j..] {}
    }
  }

  lemma FirstOccurrence(s: string, p: string) returns (x: string, y: string)
    requires p != [] && Html.Contains(s, p)
    ensures s == x + (p + y) && Html.Unseen(x, p + y, p)
    ensures p <= s ==> x == []
  {
    var i := FirstIndex(s, p);
    assert s[0..] == s;
    x, y := s[..i], s[i..][|p|..];
    assert p + y == s[i..];
    forall k | 0 <= k < |x| ensures !(p <= x[k..] + (p + y)) {
      assert x[k..] + s[i..] == s[k..];
    }
  }

  lemma {:induction false} NothingToReplace(s: string, p: string)
    requires p != [] && !Html.Contains(s, p)
    ensures Html.Replaced(s, p, "") == s
  {
    if s != [] {
      NothingToReplace(s[1..], p);
    }
  }

  lemma ReplacedOnce(x: string, p: string, y: string)
    requires p != [] && Html.Unseen(x, p + y, p) && !Html.Contains(y, p)
    ensures Html.Replaced(x + (p + y), p, "") == x + y
  {
    Html.ReplaceSkips(x, p + y, p, "");
    NothingToReplace(y, p);
    assert (p + y)[|p|..] == y && "" + y == y;
  }

  lemma NonBlankOfThree(x: string, p: string, y: string)
    ensures NonBlank(x + (p + y)) == NonBlank(x) + (NonBlank(p) + NonBlank(y))
  {
    NonBlankConcat(x, p + y);
    NonBlankConcat(p, y);
  }

  lemma ContainedIsNotBlank(s: string, p: string)
    requires p != [] && Html.Contains(s, p)
    ensures NonBlank(p) != [] ==> NonBlank(s) != []
  {
    var x, y := FirstOccurrence(s, p);
    NonBlankOfThree(x, p, y);
  }

  lemma MatchedUserIsNotBlank(check: string, u: string)
    requires Matches(check, u)
    ensures NonBlank(u) != [] && NonBlank(u) == NonBlank(check)
  {
    TrimmedKeeps(check);
    TrimmedKeeps(u);
  }

  /** A matched user that occurs is cut out whole, between blanks. */
  lemma CutOut(check: string, u: string) returns (x: string, y: string)
    requires Matches(check, u) && Html.Contains(check, u)
    ensures check == x + (u + y) && Removed(check, u) == x + y
    ensures NonBlank(x) == [] && NonBlank(y) == []
    ensures u <= check ==> x == []
  {
    MatchedUserIsNotBlank(check, u);
    x, y := FirstOccurrence(check, u);
    NonBlankOfThree(x, u, y);
    assert |NonBlank(x)| + |NonBlank(u)| + |NonBlank(y)| == |NonBlank(u)|;
    if Html.Contains(y, u) {
      ContainedIsNotBlank(y, u);
    }
    ReplacedOnce(x, u, y);
  }

  /** Then erasing the markup gives the same characters. */
  lemma OccurringUser(check: string, u: string)
    requires Matches(check, u) && Html.Contains(check, u)
    ensures |u + Removed(check, u)| == |check| && NonBlank(u + Removed(check, u)) == NonBlank(check)
  {
    var x, y := CutOut(check, u);
    MatchedUserIsNotBlank(check, u);
    NonBlankOfThree(u, x, y);
  }

  /** And the same text exactly when the user leads, as it does when the replaced characters open with no blank. */
  lemma LeadingUser(check: string, u: string)
    requires Matches(check, u) && Html.Contains(check, u)
    ensures u <= check <==> u + Removed(check, u) == check
    ensures !IsWhitespace(check[0]) ==> u <= check
  {
    var x, y := CutOut(check, u);
    assert (u + (x + y))[..|u|] == u;
    if x == [] {
      assert check == u + y && x + y == y;
    } else {
      assert check[0] == x[0] && Kept(x[0]) + NonBlank(x[1..]) == [];
    }
  }

  /** A matched user that does not occur, because of the blanks around it, is written besides the run. */
  lemma AbsentUser(check: string, u: string)
    requires Matches(check, u) && !Html.Contains(check, u)
    ensures Removed(check, u) == check && !(u <= check)
    ensures |NonBlank(u + Removed(check, u))| > |NonBlank(check)| && |u + Removed(check, u)| > |check|
  {
    NothingToReplace(check, u);
    MatchedUserIsNotBlank(check, u);
    NonBlankConcat(u, check);
  }

  // ---------- One run ----------

  function Before(ps: seq<Piece>): Option<char>
    requires EndsInLetter(ps)
  {
    if ps == [] then None else Some(ps[|ps| - 1].c)
  }

  /** `kept` was there, `text` was to be added, `now` is there: what the two flags say about it. */
  ghost predicate Keeps(kept: string, text: string, now: string, occurs: bool, leads: bool) {
    && (occurs ==> |now| == |kept + text| && NonBlank(now) == NonBlank(kept + text) && kept <= now)
    && (!occurs ==> |now| > |kept + text| && |NonBlank(now)| > |NonBlank(kept + text)|)
    && (leads <==> now == kept + text)
  }

  /** Adding `u` and what is left of `check` where `check` was to be added. */
  lemma MentionKeeps(kept: string, check: string, u: string)
    requires Matches(check, u)
    ensures Keeps(kept, check, kept + (u + Removed(check, u)), Html.Contains(check, u), u <= check)
  {
    var m := u + Removed(check, u);
    NonBlankConcat(kept, check);
    NonBlankConcat(kept, m);
    assert (kept + m)[|kept|..] == m && (kept + check)[|kept|..] == check;
    if Html.Contains(check, u) {
      OccurringUser(check, u);
      LeadingUser(check, u);
    } else {
      AbsentUser(check, u);
    }
  }

  /** If the character in front is needed to name somebody it is not blank, so an occurring user leads. */
  lemma DrawnInIsNotBlank(c: char, run: string, users: seq<string>)
    requires FirstMatch(run, users).None? && FirstMatch([c] + run, users).Some?
    ensures !IsWhitespace(c)
  {}

  /** Drawing in the character in front moves it from what is kept to what is replaced. */
  lemma DrawnInKeeps(init: string, c: char, run: string, users: seq<string>)
    requires FirstMatch(run, users).None? && FirstMatch([c] + run, users).Some?
    ensures var check, u := [c] + run, FirstMatch([c] + run, users).value;
      Keeps(init + [c], run, init + (u + Removed(check, u)), Html.Contains(check, u), u <= check)
  {
    var check, u := [c] + run, FirstMatch([c] + run, users).value;
    var now := init + (u + Removed(check, u));
    MentionKeeps(init, check, u);
    assert init + [c] + run == init + check;
    if Html.Contains(check, u) {
      DrawnInIsNotBlank(c, run, users);
      LeadingUser(check, u);
      assert now == init + [c] + run;
    }
  }

  /** What one flush of `run` after `ps` comes to. */
  ghost predicate FlushOutcome(ps: seq<Piece>, run: string, users: seq<string>)
    requires EndsInLetter(ps)
  {
    var r, out := Run(Before(ps), run), Flushed(ps, run, users);
    && (out.None? <==> Traps(r, users))
    && (out.Some? ==> out.value != [])
    && (out.Some? ==> Keeps(Erased(ps), run, Erased(out.value), ChosenOccurs(r, users), ChosenLeads(r, users)))
  }

  lemma FlushNamesByItself(ps: seq<Piece>, run: string, users: seq<string>)
    requires EndsInLetter(ps) && FirstMatch(run, users).Some?
    ensures FlushOutcome(ps, run, users)
  {
    var u := FirstMatch(run, users).value;
    MentionErased(ps, u, Removed(run, u));
    MentionKeeps(Erased(ps), run, u);
  }

  lemma FlushNamesDrawnIn(ps: seq<Piece>, run: string, users: seq<string>)
    requires EndsInLetter(ps) && ps != []
    requires FirstMatch(run, users).None? && FirstMatch([LastOrAt(ps)] + run, users).Some?
    ensures FlushOutcome(ps, run, users)
  {
    var c, init := LastOrAt(ps), ps[..|ps| - 1];
    var u := FirstMatch([c] + run, users).value;
    assert Erased(ps) == Erased(init) + [c] by {
      assert ps == init + [Letter(c)];
      EndsWithLetter(init, c);
    }
    MentionErased(init, u, Removed([c] + run, u));
    DrawnInKeeps(Erased(init), c, run, users);
  }

  lemma FlushNamesNobody(ps: seq<Piece>, run: string, users: seq<string>)
    requires EndsInLetter(ps) && run != []
    requires FirstMatch(run, users).None? && FirstMatch([LastOrAt(ps)] + run, users).None?
    ensures FlushOutcome(ps, run, users)
  {
    ThenPlain(ps, run);
    assert Letters(run) != [];
    assert Extended(Run(Before(ps), run)) == [LastOrAt(ps)] + run;
  }

  lemma FlushKeeps(ps: seq<Piece>, run: string, users: seq<string>)
    requires EndsInLetter(ps) && run != []
    ensures FlushOutcome(ps, run, users)
  {
    if FirstMatch(run, users).Some? {
      FlushNamesByItself(ps, run, users);
    } else if FirstMatch([LastOrAt(ps)] + run, users).None? {
      FlushNamesNobody(ps, run, users);
    } else if ps != [] {
      FlushNamesDrawnIn(ps, run, users);
    } else {
      assert Extended(Run(Before(ps), run)) == [LastOrAt(ps)] + run;
    }
  }

  // ---------- The whole text ----------

  /** A run, the plain character after it, and the rest of the text. */
  lemma KeepsThen(kept: string, run: string, mid: string, c: char, tail: string, now: string,
                  o1: bool, l1: bool, o2: bool, l2: bool)
    requires Keeps(kept, run, mid, o1, l1) && Keeps(mid + [c], tail, now, o2, l2)
    ensures Keeps(kept, run + ([c] + tail), now, o1 && o2, l1 && l2)
  {
    KeepsThenCounts(kept, run, mid, c, tail, now, o1, l1, o2, l2);
    var whole := kept + run + [c] + tail;
    assert kept + (run + ([c] + tail)) == whole;
    if now == whole {
      assert (kept + run) == now[..|mid|] == (mid + [c])[..|mid|] == mid;
    }
  }

  lemma ThreeParts(a: string, c: char, b: string)
    ensures NonBlank(a + [c] + b) == NonBlank(a) + NonBlank([c]) + NonBlank(b)
    ensures |NonBlank(a + [c] + b)| == |NonBlank(a)| + |NonBlank([c])| + |NonBlank(b)|
  {
    NonBlankConcat(a + [c], b);
    NonBlankConcat(a, [c]);
  }

  lemma KeepsThenCounts(kept: string, run: string, mid: string, c: char, tail: string, now: string,
                        o1: bool, l1: bool, o2: bool, l2: bool)
    requires Keeps(kept, run, mid, o1, l1) && Keeps(mid + [c], tail, now, o2, l2)
    ensures var whole := kept + run + [c] + tail;
      && (o1 && o2 ==> |now| == |whole| && NonBlank(now) == NonBlank(whole) && kept <= mid <= now)
      && (!(o1 && o2) ==> |now| > |whole| && |NonBlank(now)| > |NonBlank(whole)|)
  {
    ThreeParts(kept + run, c, tail);
    ThreeParts(mid, c, tail);
    if o2 {
      assert mid <= mid + [c] <= now;
    }
  }

  /** The run being collected, the rest of the text, and what `Scan` makes of them. */
  ghost predicate ScanOutcome(cells: seq<Cell>, users: seq<string>, ps: seq<Piece>, run: string)
    requires EndsInLetter(ps)
  {
    var rs, out := RunsFrom(cells, Before(ps), run), Scan(cells, users, ps, run);
    && (out.None? <==> SomeRunTraps(rs, users))
    && (out.Some? ==> Keeps(Erased(ps), run + Text(cells), Erased(out.value), AllOccur(rs, users), AllLead(rs, users)))
  }

  /** Run by run: a text never traps, keeps its non-blank characters, is kept whole, exactly when each of its runs
      does. */
  lemma {:induction false} ScanKeeps(cells: seq<Cell>, users: seq<string>, ps: seq<Piece>, run: string)
    requires EndsInLetter(ps) && (cells == [] ==> run == [])
    ensures ScanOutcome(cells, users, ps, run)
    decreases |cells|, 2
  {
    if cells == [] {
      assert run + Text(cells) == "" && Erased(ps) + "" == Erased(ps);
    } else if cells[0].coloured {
      var run' := run + [cells[0].c];
      assert run + Text(cells) == run' + Text(cells[1..]);
      if |cells| == 1 {
        LastRunKeeps(cells, users, ps, run);
      } else {
        ScanKeeps(cells[1..], users, ps, run');
      }
    } else if run == [] {
      assert Erased(ps) + "" == Erased(ps);
      PlainStep(cells, users, ps, ps, run, true, true);
    } else {
      RunThenPlainKeeps(cells, users, ps, run);
    }
  }

  lemma LastRunKeeps(cells: seq<Cell>, users: seq<string>, ps: seq<Piece>, run: string)
    requires EndsInLetter(ps) && |cells| == 1 && cells[0].coloured
    ensures ScanOutcome(cells, users, ps, run)
  {
    var r := Run(Before(ps), run + [cells[0].c]);
    FlushKeeps(ps, r.text, users);
    assert RunsFrom(cells, Before(ps), run) == [r];
    assert run + Text(cells) == r.text;
    assert r in [r];
  }

  lemma {:induction false} RunThenPlainKeeps(cells: seq<Cell>, users: seq<string>, ps: seq<Piece>, run: string)
    requires EndsInLetter(ps) && cells != [] && !cells[0].coloured && run != []
    ensures ScanOutcome(cells, users, ps, run)
    decreases |cells|, 1
  {
    var r, rest := Run(Before(ps), run), RunsFrom(cells[1..], Some(cells[0].c), []);
    var mid := Flushed(ps, run, users);
    FlushKeeps(ps, run, users);
    assert RunsFrom(cells, Before(ps), run) == [r] + rest;
    assert ([r] + rest)[0] == r;
    if mid.Some? {
      PlainStep(cells, users, ps, mid.value, run, ChosenOccurs(r, users), ChosenLeads(r, users));
      assert forall q :: q in [r] + rest <==> q == r || q in rest;
    }
  }

  lemma {:induction false} PlainStep(cells: seq<Cell>, users: seq<string>, ps: seq<Piece>, mid: seq<Piece>,
                                     run: string, o: bool, l: bool)
    requires EndsInLetter(ps) && cells != [] && !cells[0].coloured
    requires Keeps(Erased(ps), run, Erased(mid), o, l)
    ensures var c := cells[0].c;
      var rest, out := RunsFrom(cells[1..], Some(c), []), Scan(cells[1..], users, mid + [Letter(c)], []);
      && (out.None? <==> SomeRunTraps(rest, users))
      && (out.Some? ==>
            Keeps(Erased(ps), run + Text(cells), Erased(out.value),
                  o && AllOccur(rest, users), l && AllLead(rest, users)))
    decreases |cells|, 0
  {
    var c, next := cells[0].c, mid + [Letter(cells[0].c)];
    ScanKeeps(cells[1..], users, next, []);
    EndsWithLetter(mid, c);
    assert "" + Text(cells[1..]) == Text(cells[1..]);
    var rest, out := RunsFrom(cells[1..], Some(c), []), Scan(cells[1..], users, next, []);
    if out.Some? {
      KeepsThen(Erased(ps), run, Erased(mid), c, Text(cells[1..]), Erased(out.value),
                o, l, AllOccur(rest, users), AllLead(rest, users));
    }
  }

  // ---------- Which users are put into markup ----------

  /** The users in markup, in order. */
  function Users(ps: seq<Piece>): seq<string> {
    if ps == [] then [] else (if ps[0].Mention? then [ps[0].user] else []) + Users(ps[1..])
  }

  /** The user that a run names, if it names one. */
  function NamedBy(r: Run, users: seq<string>): seq<string> {
    if Chosen(r, users).Some? then [Chosen(r, users).value.1] else []
  }

  /** The users that the runs name, in order. */
  function Named(rs: seq<Run>, users: seq<string>): seq<string> {
    if rs == [] then [] else NamedBy(rs[0], users) + Named(rs[1..], users)
  }

  lemma {:induction false} UsersConcat(a: seq<Piece>, b: seq<Piece>)
    ensures Users(a + b) == Users(a) + Users(b)
  {
    if a == [] {
      assert a + b == b;
    } else {
      assert (a + b)[0] == a[0] && (a + b)[1..] == a[1..] + b;
      UsersConcat(a[1..], b);
    }
  }

  lemma {:induction false} LettersNameNobody(s: string)
    ensures Users(Letters(s)) == []
  {
    if s != [] {
      LettersNameNobody(s[1..]);
    }
  }

  lemma UsersWithMention(ps: seq<Piece>, u: string, rest: string)
    ensures Users(WithMention(ps, u, rest)) == Users(ps) + [u]
  {
    UsersConcat(ps, [Mention(u)] + Letters(rest));
    assert ([Mention(u)] + Letters(rest))[1..] == Letters(rest);
    LettersNameNobody(rest);
  }

  lemma UsersThenLetter(ps: seq<Piece>, c: char)
    ensures Users(ps + [Letter(c)]) == Users(ps)
  {
    UsersConcat(ps, [Letter(c)]);
    assert [Letter(c)][1..] == [];
  }

  /** A flush puts the user its run names into markup, and no other. */
  lemma FlushNames(ps: seq<Piece>, run: string, users: seq<string>)
    requires EndsInLetter(ps)
    ensures Flushed(ps, run, users).Some? ==>
      Users(Flushed(ps, run, users).value) == Users(ps) + NamedBy(Run(Before(ps), run), users)
  {
    assert Extended(Run(Before(ps), run)) == [LastOrAt(ps)] + run;
    if FirstMatch(run, users).Some? {
      UsersWithMention(ps, FirstMatch(run, users).value, Removed(run, FirstMatch(run, users).value));
    } else if FirstMatch([LastOrAt(ps)] + run, users).None? {
      UsersConcat(ps, Letters(run));
      LettersNameNobody(run);
    } else if ps != [] {
      var u, init := FirstMatch([LastOrAt(ps)] + run, users).value, ps[..|ps| - 1];
      UsersWithMention(init, u, Removed([LastOrAt(ps)] + run, u));
      assert ps == init + [Letter(LastOrAt(ps))];
      UsersThenLetter(init, LastOrAt(ps));
    }
  }

  /** Run by run: the users in markup are those the runs name. */
  lemma {:induction false} ScanNames(cells: seq<Cell>, users: seq<string>, ps: seq<Piece>, run: string)
    requires EndsInLetter(ps) && (cells == [] ==> run == [])
    ensures var out := Scan(cells, users, ps, run);
      out.Some? ==> Users(out.value) == Users(ps) + Named(RunsFrom(cells, Before(ps), run), users)
    decreases |cells|
  {
    if cells == [] {
    } else if cells[0].coloured {
      var run' := run + [cells[0].c];
      if |cells| == 1 {
        FlushNames(ps, run', users);
        assert RunsFrom(cells, Before(ps), run) == [Run(Before(ps), run')];
        NamedOne(Run(Before(ps), run'), [], users);
      } else {
        ScanNames(cells[1..], users, ps, run');
      }
    } else {
      var flushed := if run == [] then Some(ps) else Flushed(ps, run, users);
      if flushed.Some? {
        var next, rest := flushed.value + [Letter(cells[0].c)], RunsFrom(cells[1..], Some(cells[0].c), []);
        ScanNames(cells[1..], users, next, []);
        UsersThenLetter(flushed.value, cells[0].c);
        if run != [] {
          FlushNames(ps, run, users);
          NamedOne(Run(Before(ps), run), rest, users);
        } else {
          assert [] + rest == rest;
        }
      }
    }
  }

  lemma NamedOne(r: Run, rest: seq<Run>, users: seq<string>)
    ensures Named([r] + rest, users) == NamedBy(r, users) + Named(rest, users)
  {
    assert ([r] + rest)[1..] == rest;
  }

  ghost predicate MentionsOnly(ps: seq<Piece>, users: seq<string>) {
    forall p :: p in ps && p.Mention? ==> p.user in users
  }

  lemma FlushedMentions(ps: seq<Piece>, run: string, users: seq<string>)
    requires EndsInLetter(ps) && MentionsOnly(ps, users)
    ensures Flushed(ps, run, users).Some? ==> MentionsOnly(Flushed(ps, run, users).value, users)
  {
    LettersShow(run);
    var own, drawnIn := FirstMatch(run, users), FirstMatch([LastOrAt(ps)] + run, users);
    if own.Some? {
      LettersShow(Removed(run, own.value));
    } else if drawnIn.Some? {
      LettersShow(Removed([LastOrAt(ps)] + run, drawnIn.value));
    }
  }

  /** The loop over the characters. `pieces` is the output as the scanner means it. */
  method FetchAttributedText(cells: seq<Cell>, allTagUsers: seq<string>)
    returns (r: Option<string>, ghost pieces: seq<Piece>)
    ensures r.None? <==> SomeRunTraps(Runs(cells), allTagUsers)
    ensures r.Some? ==> r.value == Written(pieces) && MentionsOnly(pieces, allTagUsers)
    ensures r.Some? ==> Users(pieces) == Named(Runs(cells), allTagUsers)
    ensures forall u :: WrittenPiece(Mention(u)) == "<font color='#007AFF'>" + u + "</font>"
    ensures r.Some? ==> (NonBlank(Erased(pieces)) == NonBlank(Text(cells)) <==> AllOccur(Runs(cells), allTagUsers))
    ensures r.Some? ==> (Erased(pieces) == Text(cells) <==> AllLead(Runs(cells), allTagUsers))
  {
    ScanKeeps(cells, allTagUsers, [], []);
    ScanNames(cells, allTagUsers, [], []);
    assert Erased([]) + ("" + Text(cells)) == Text(cells);
    var allSubstrings, run := "", "";
    pieces := [];
    for i := 0 to |cells|
      invariant EndsInLetter(pieces) && allSubstrings == Written(pieces) && MentionsOnly(pieces, allTagUsers)
      invariant Scan(cells, allTagUsers, [], []) == Scan(cells[i..], allTagUsers, pieces, run)
    {
      assert cells[i..][1..] == cells[i + 1..];
      if cells[i].coloured {
        run := run + [cells[i].c];
        if i == |cells| - 1 {
          var flushed := Flush(allSubstrings, run, allTagUsers, pieces);
          FlushedMentions(pieces, run, allTagUsers);
          if flushed.None? {
            return None, [];
          }
          return flushed, Flushed(pieces, run, allTagUsers).value;
        }
      } else {
        if run != [] {
          var flushed := Flush(allSubstrings, run, allTagUsers, pieces);
          FlushedMentions(pieces, run, allTagUsers);
          if flushed.None? {
            return None, [];
          }
          allSubstrings, pieces := flushed.value, Flushed(pieces, run, allTagUsers).value;
        }
        EndsWithLetter(pieces, cells[i].c);
        allSubstrings, pieces, run := allSubstrings + [cells[i].c], pieces + [Letter(cells[i].c)], "";
      }
    }
    r := Some(allSubstrings);
  }

  // ---------- What a caller can rely on ----------

  /** A text without colour has no runs. */
  lemma {:induction false} PlainHasNoRuns(cells: seq<Cell>, before: Option<char>)
    requires forall i :: 0 <= i < |cells| ==> !cells[i].coloured
    ensures RunsFrom(cells, before, []) == []
    decreases |cells|
  {
    if cells != [] {
      PlainHasNoRuns(cells[1..], Some(cells[0].c));
    }
  }

  /** Which the runs are: the first is the first coloured stretch, whole, with the plain character in front of it, and
      the others are those of the text behind it. */
  lemma {:induction false} FirstRunIs(plain: seq<Cell>, run: seq<Cell>, rest: seq<Cell>)
    requires forall i :: 0 <= i < |plain| ==> !plain[i].coloured
    requires run != [] && forall i :: 0 <= i < |run| ==> run[i].coloured
    requires rest != [] ==> !rest[0].coloured
    ensures var before := if plain == [] then None else Some(plain[|plain| - 1].c);
      Runs(plain + (run + rest)) == [Run(before, Text(run))] + Runs(rest)
  {
    RunsBehindPlain(plain, run + rest, None);
    RunsBehindRun(run, rest, if plain == [] then None else Some(plain[|plain| - 1].c), []);
    assert [] + Text(run) == Text(run);
  }

  lemma {:induction false} RunsBehindPlain(plain: seq<Cell>, rest: seq<Cell>, before: Option<char>)
    requires forall i :: 0 <= i < |plain| ==> !plain[i].coloured
    ensures RunsFrom(plain + rest, before, [])
         == RunsFrom(rest, if plain == [] then before else Some(plain[|plain| - 1].c), [])
    decreases |plain|
  {
    if plain == [] {
      assert plain + rest == rest;
    } else {
      assert (plain + rest)[1..] == plain[1..] + rest;
      RunsBehindPlain(plain[1..], rest, Some(plain[0].c));
    }
  }

  lemma {:induction false} RunsBehindRun(run: seq<Cell>, rest: seq<Cell>, before: Option<char>, got: string)
    requires forall i :: 0 <= i < |run| ==> run[i].coloured
    requires rest != [] ==> !rest[0].coloured
    requires got + Text(run) != []
    ensures RunsFrom(run + rest, before, got) == [Run(before, got + Text(run))] + Runs(rest)
    decreases |run|
  {
    if run == [] {
      assert run + rest == rest && got + Text(run) == got;
    } else {
      assert (run + rest)[0] == run[0] && (run + rest)[1..] == run[1..] + rest;
      assert got + Text(run) == (got + [run[0].c]) + Text(run[1..]);
      RunsBehindRun(run[1..], rest, before, got + [run[0].c]);
    }
  }

  /** `k` is the first user that is the run, apart from blanks around either. */
  ghost predicate IsFirstMatch(run: string, users: seq<string>, k: nat) {
    k < |users| && Matches(run, users[k]) && forall j :: 0 <= j < k ==> !Matches(run, users[j])
  }

  /** Which user a run names. */
  lemma {:induction false} FirstMatchExactly(run: string, users: seq<string>, k: nat)
    ensures IsFirstMatch(run, users, k) ==> FirstMatch(run, users) == Some(users[k])
    ensures FirstMatch(run, users).None? <==> forall u :: u in users ==> !Matches(run, u)
  {
    if IsFirstMatch(run, users, k) && k > 0 {
      assert !Matches(run, users[0]);
      assert IsFirstMatch(run, users[1..], k - 1) by {
        assert forall j :: 0 <= j < k - 1 ==> users[1..][j] == users[j + 1];
      }
      FirstMatchExactly(run, users[1..], k - 1);
    }
  }

  lemma {:induction false} RunsShape(cells: seq<Cell>, before: Option<char>, run: string)
    ensures forall r :: r in RunsFrom(cells, before, run) ==> r.text != []
    ensures forall i :: 0 < i < |RunsFrom(cells, before, run)| ==> RunsFrom(cells, before, run)[i].before.Some?
    ensures before.Some? || (cells != [] && !cells[0].coloured && run == [])
            ==> forall r :: r in RunsFrom(cells, before, run) ==> r.before.Some?
    decreases |cells|
  {
    if cells != [] {
      if cells[0].coloured {
        RunsShape(cells[1..], before, run + [cells[0].c]);
      } else {
        RunsShape(cells[1..], Some(cells[0].c), []);
      }
    }
  }

  /** The trap: a text that opens with a coloured run naming nobody, where `@` and that run name somebody. */
  lemma OnlyTheOpeningRunTraps(cells: seq<Cell>, users: seq<string>)
    ensures SomeRunTraps(Runs(cells), users)
            <==> cells != [] && cells[0].coloured && Runs(cells) != [] && Traps(Runs(cells)[0], users)
  {
    RunsShape(cells, None, []);
    if SomeRunTraps(Runs(cells), users) {
      var r :| r in Runs(cells) && Traps(r, users);
      var i :| 0 <= i < |Runs(cells)| && Runs(cells)[i] == r;
    }
  }

  ghost predicate AllTrimmed(users: seq<string>) {
    forall u :: u in users ==> Trimmed(u) == u
  }

  lemma MiddleIsContained(x: string, p: string, y: string)
    requires p != []
    ensures Html.Contains(x + p + y, p)
  {
    assert x + p + y == x + (p + y);
    Html.ContainsSkips(x, p + y, p);
  }

  lemma TrimmedUserOccurs(check: string, u: string)
    requires Matches(check, u) && Trimmed(u) == u
    ensures Html.Contains(check, u)
  {
    var front, back := TrimmedSplits(check);
    MiddleIsContained(front, u, back);
  }

  /** With trimmed users no character but blanks is lost, moved or doubled. */
  lemma TrimmedUsersKeepCharacters(cells: seq<Cell>, users: seq<string>)
    requires AllTrimmed(users)
    ensures AllOccur(Runs(cells), users)
  {
    forall r | r in Runs(cells) ensures ChosenOccurs(r, users) {
      var chosen := Chosen(r, users);
      if chosen.Some? {
        TrimmedUserOccurs(chosen.value.0, chosen.value.1);
      }
    }
  }

  /** If besides no coloured run opens with a blank, the text is kept whole. */
  lemma TrimmedUsersKeepText(cells: seq<Cell>, users: seq<string>)
    requires AllTrimmed(users) && (forall r :: r in Runs(cells) && r.text != [] ==> !IsWhitespace(r.text[0]))
    ensures AllLead(Runs(cells), users)
  {
    RunsShape(cells, None, []);
    forall r | r in Runs(cells) ensures ChosenLeads(r, users) {
      var chosen := Chosen(r, users);
      if chosen.Some? {
        TrimmedUserOccurs(chosen.value.0, chosen.value.1);
        if FirstMatch(r.text, users).None? {
          DrawnInIsNotBlank(Extended(r)[0], r.text, users);
        }
        LeadingUser(chosen.value.0, chosen.value.1);
      }
    }
  }

  /** Without that the characters are not kept: a user stored with a blank at its end is written besides the run. */
  lemma UntrimmedUserIsWrittenTwice()
    ensures !AllOccur(Runs([Cell('b', true)]), ["b "])
  {
    assert "b "[..1] == "b";
    assert Trimmed("b ") == "b" == Trimmed("b");
    var r := Run(None, "b");
    assert "" + ['b'] == "b";
    assert Runs([Cell('b', true)]) == [r];
    assert Matches("b", "b ") && FirstMatch("b", ["b "]) == Some("b ");
    assert Chosen(r, ["b "]) == Some(("b", "b "));
    assert r in [r];
  }

  /** And `removeLast` is reached on an empty string. */
  lemma OpeningRunAfterAt()
    ensures SomeRunTraps(Runs([Cell('b', true)]), ["@b"])
  {
    assert Trimmed("@b") == "@b" && Trimmed("b") == "b";
    var r := Run(None, "b");
    assert "" + ['b'] == "b" && ['@'] + "b" == "@b";
    assert Runs([Cell('b', true)]) == [r];
    assert r in [r];
  }
}
