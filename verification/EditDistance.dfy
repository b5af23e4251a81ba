/** The two-row Levenshtein loop of `String.levenshteinDistanceScore`, proved to compute the length of a shortest
    edit script, and the similarity score built on it. */
module EditDistance {
  import opened Options
  import opened Characters

  // ---------- Edit scripts: what the distance is supposed to measure ----------

  /** One edit at a position of the current text. */
  datatype Edit = Insert(at: nat, c: char) | Delete(at: nat) | Substitute(at: nat, c: char)

  /** The text after one edit, or `None` when the position is outside the text. */
  function Perform(s: string, e: Edit): Option<string> {
    match e
    case Insert(i, c) => if i <= |s| then Some(s[..i] + [c] + s[i..]) else None
    case Delete(i) => if i < |s| then Some(s[..i] + s[i + 1..]) else None
    case Substitute(i, c) => if i < |s| then Some(s[..i] + [c] + s[i + 1..]) else None
  }

  /** Performing the edits of `script` in order, each on the result of the one before, turns `a` into `b`. */
  ghost predicate Turns(a: string, script: seq<Edit>, b: string)
    decreases |script|
  {
    if script == [] then a == b
    else
      var r := Perform(a, script[0]);
      r.Some? && Turns(r.value, script[1..], b)
  }

  /** `d` is the length of a shortest script from `a` to `b`. */
  ghost predicate IsShortestScriptLength(a: string, b: string, d: nat) {
    && (exists script :: |script| == d && Turns(a, script, b))
    && (forall script :: Turns(a, script, b) ==> d <= |script|)
  }

  // ---------- The recurrence the loop tabulates ----------

  function Init(s: string): string
    requires s != []
  {
    s[..|s| - 1]
  }

  function Last(s: string): char
    requires s != []
  {
    s[|s| - 1]
  }

  function Min3(x: nat, y: nat, z: nat): nat {
    if x <= y && x <= z then x else if y <= z then y else z
  }

  /** On equal last letters no minimum is taken, exactly as in the loop. */
  function Dist(a: string, b: string): nat
    decreases |a| + |b|
  {
    if a == [] then |b|
    else if b == [] then |a|
    else if Last(a) == Last(b) then Dist(Init(a), Init(b))
    else Min3(Dist(Init(a), Init(b)), Dist(Init(a), b), Dist(a, Init(b))) + 1
  }

  lemma SplitLast(s: string)
    requires s != []
    ensures Init(s) + [Last(s)] == s
  {}

  lemma UnfoldSnoc(a: string, x: char, b: string, y: char)
    ensures Init(a + [x]) == a && Last(a + [x]) == x
    ensures x == y ==> Dist(a + [x], b + [y]) == Dist(a, b)
    ensures x != y ==> Dist(a + [x], b + [y]) == Min3(Dist(a, b), Dist(a, b + [y]), Dist(a + [x], b)) + 1
  {}

  /** Reading both arguments the other way round changes nothing. */
  lemma {:induction false} Symmetric(a: string, b: string)
    ensures Dist(a, b) == Dist(b, a)
    decreases |a| + |b|
  {
    if a != [] && b != [] {
      Symmetric(Init(a), Init(b));
      Symmetric(Init(a), b);
      Symmetric(a, Init(b));
    }
  }

  /** One letter more on the left moves the distance by at most one, in either direction. */
  lemma {:induction false} LeftLetter(a: string, x: char, b: string)
    ensures Dist(a + [x], b) <= Dist(a, b) + 1
    ensures Dist(a, b) <= Dist(a + [x], b) + 1
    decreases |a| + |b|
  {
    if b == [] {
      return;
    }
    var b', y := Init(b), Last(b);
    SplitLast(b);
    UnfoldSnoc(a, x, b', y);
    RightLetter(a, b', y);
    if x != y {
      LeftLetter(a, x, b');
    }
  }

  lemma {:induction false} RightLetter(a: string, b: string, y: char)
    ensures Dist(a, b + [y]) <= Dist(a, b) + 1
    ensures Dist(a, b) <= Dist(a, b + [y]) + 1
    decreases |a| + |b|
  {
    if a == [] {
      return;
    }
    var a', x := Init(a), Last(a);
    SplitLast(a);
    UnfoldSnoc(a', x, b, y);
    LeftLetter(a', x, b);
    if x != y {
      RightLetter(a', b, y);
    }
  }

  /** Taking `last[j]` without a minimum on equal letters is sound: the other two choices are never better. */
  lemma {:induction false} EqualLettersNeedNoMinimum(a: string, b: string, x: char)
    ensures Dist(a + [x], b + [x]) <= Dist(a, b + [x]) + 1
    ensures Dist(a + [x], b + [x]) <= Dist(a + [x], b) + 1
    ensures Dist(a + [x], b + [x]) == Dist(a, b)
  {
    UnfoldSnoc(a, x, b, x);
    RightLetter(a, b, x);
    LeftLetter(a, x, b);
  }

  lemma {:induction false} Triangle(a: string, b: string, c: string)
    ensures Dist(a, c) <= Dist(a, b) + Dist(b, c)
    decreases |a| + |b| + |c|
  {
    if a != [] && b != [] && c != [] {
      TriangleStep(a, b, c);
    } else if b == [] {
      LengthBounds(a, c);
    } else if a == [] {
      LengthBounds(b, c);
    } else {
      LengthBounds(a, b);
    }
  }

  /** By the case that decides `Dist(b, c)`, for each case that decides `Dist(a, b)`. */
  lemma {:induction false} TriangleStep(a: string, b: string, c: string)
    requires a != [] && b != [] && c != []
    ensures Dist(a, c) <= Dist(a, b) + Dist(b, c)
    decreases |a| + |b| + |c|, 0
  {
    var (a', b', c') := (Init(a), Init(b), Init(c));
    SplitLast(a); SplitLast(c);
    LeftLetter(a', Last(a), c);
    RightLetter(a, c', Last(c));
    if Last(a) != Last(b) && Dist(a, b) == Dist(a', b) + 1 {
      Triangle(a', b, c);
    } else if Last(b) != Last(c) && Dist(b, c) == Dist(b, c') + 1 {
      Triangle(a, b, c');
    } else if Last(a) != Last(b) && Dist(a, b) == Dist(a, b') + 1 {
      Triangle(a, b', c);
      Triangle(a, b', c');
    } else {
      Triangle(a', b', c);
      Triangle(a', b', c');
    }
  }

  /** The distance lies between the length difference and the larger length. */
  lemma {:induction false} LengthBounds(a: string, b: string)
    ensures |a| <= |b| + Dist(a, b) && |b| <= |a| + Dist(a, b)
    ensures Dist(a, b) <= |a| || Dist(a, b) <= |b|
    decreases |a| + |b|
  {
    if a != [] && b != [] {
      LengthBounds(Init(a), Init(b));
      LengthBounds(Init(a), b);
      LengthBounds(a, Init(b));
    }
  }

  lemma {:induction false} ZeroOnlyOnEqual(a: string, b: string)
    ensures Dist(a, b) == 0 <==> a == b
    decreases |a| + |b|
  {
    if a != [] && b != [] {
      SplitLast(a); SplitLast(b);
      ZeroOnlyOnEqual(Init(a), Init(b));
    }
  }

  /** The distance is a metric, bounded by the lengths. */
  lemma Metric(a: string, b: string, c: string)
    ensures Dist(a, b) == Dist(b, a)
    ensures Dist(a, c) <= Dist(a, b) + Dist(b, c)
    ensures Dist(a, b) == 0 <==> a == b
    ensures |a| <= |b| + Dist(a, b) && |b| <= |a| + Dist(a, b)
    ensures Dist(a, b) <= (if |a| < |b| then |b| else |a|)
  {
    Symmetric(a, b);
    Triangle(a, b, c);
    ZeroOnlyOnEqual(a, b);
    LengthBounds(a, b);
  }

  // ---------- The recurrence is the shortest script length ----------

  lemma {:induction false} CommonSuffix(p: string, r: string, q: string)
    ensures Dist(p + q, r + q) == Dist(p, r)
    decreases |q|
  {
    if q == [] {
      assert p + q == p && r + q == r;
    } else {
      SplitLast(q);
      assert p + q == (p + Init(q)) + [Last(q)] && r + q == (r + Init(q)) + [Last(q)];
      UnfoldSnoc(p + Init(q), Last(q), r + Init(q), Last(q));
      CommonSuffix(p, r, Init(q));
    }
  }

  /** A single edit, wherever it is made, is at distance at most one. */
  lemma OneEditIsNear(s: string, e: Edit)
    requires Perform(s, e).Some?
    ensures Dist(s, Perform(s, e).value) <= 1
  {
    var p, t := s[..e.at], Perform(s, e).value;
    ZeroOnlyOnEqual(p, p);
    match e
    case Insert(i, c) =>
      assert s == p + s[i..] && t == (p + [c]) + s[i..];
      CommonSuffix(p, p + [c], s[i..]);
      RightLetter(p, p, c);
    case Delete(i) =>
      assert s == (p + [s[i]]) + s[i + 1..] && t == p + s[i + 1..];
      CommonSuffix(p + [s[i]], p, s[i + 1..]);
      LeftLetter(p, s[i], p);
    case Substitute(i, c) =>
      assert s == (p + [s[i]]) + s[i + 1..] && t == (p + [c]) + s[i + 1..];
      CommonSuffix(p + [s[i]], p + [c], s[i + 1..]);
      UnfoldSnoc(p, s[i], p, c);
  }

  /** No script is shorter than the recurrence says. */
  lemma {:induction false} NoScriptIsShorter(a: string, script: seq<Edit>, b: string)
    requires Turns(a, script, b)
    ensures Dist(a, b) <= |script|
    decreases |script|
  {
    if script == [] {
      ZeroOnlyOnEqual(a, b);
    } else {
      var next := Perform(a, script[0]).value;
      NoScriptIsShorter(next, script[1..], b);
      OneEditIsNear(a, script[0]);
      Triangle(a, next, b);
    }
  }

  lemma {:induction false} TurnsWithSuffix(a: string, script: seq<Edit>, b: string, t: string)
    requires Turns(a, script, b)
    ensures Turns(a + t, script, b + t)
    decreases |script|
  {
    if script != [] {
      var next := Perform(a, script[0]).value;
      assert Perform(a + t, script[0]) == Some(next + t) by {
        match script[0]
        case Insert(i, c) => assert (a + t)[..i] + [c] + (a + t)[i..] == next + t;
        case Delete(i) => assert (a + t)[..i] + (a + t)[i + 1..] == next + t;
        case Substitute(i, c) => assert (a + t)[..i] + [c] + (a + t)[i + 1..] == next + t;
      }
      TurnsWithSuffix(next, script[1..], b, t);
    }
  }

  lemma {:induction false} TurnsThen(a: string, script: seq<Edit>, b: string, e: Edit)
    requires Turns(a, script, b) && Perform(b, e).Some?
    ensures Turns(a, script + [e], Perform(b, e).value)
    decreases |script|
  {
    if script == [] {
      assert Turns(Perform(b, e).value, [], Perform(b, e).value);
    } else {
      TurnsThen(Perform(a, script[0]).value, script[1..], b, e);
      assert (script + [e])[1..] == script[1..] + [e];
    }
  }

  /** A script of exactly the computed length exists. */
  lemma {:induction false} ShortestScript(a: string, b: string) returns (script: seq<Edit>)
    ensures |script| == Dist(a, b) && Turns(a, script, b)
    decreases |a| + |b|
  {
    if a == [] && b == [] {
      script := [];
    } else if b == [] || (a != [] && Last(a) != Last(b) && Dist(a, b) == Dist(Init(a), b) + 1) {
      var rest := ShortestScript(Init(a), b);
      script := [Delete(|a| - 1)] + rest;
      assert a[..|a| - 1] + a[|a|..] == Init(a);
      assert script[1..] == rest;
    } else if a == [] || (Last(a) != Last(b) && Dist(a, b) == Dist(a, Init(b)) + 1) {
      var rest := ShortestScript(a, Init(b));
      SplitLast(b);
      assert Init(b)[..|b| - 1] + [Last(b)] + Init(b)[|b| - 1..] == b;
      TurnsThen(a, rest, Init(b), Insert(|b| - 1, Last(b)));
      script := rest + [Insert(|b| - 1, Last(b))];
    } else {
      var rest := ShortestScript(Init(a), Init(b));
      SplitLast(a); SplitLast(b);
      TurnsWithSuffix(Init(a), rest, Init(b), [Last(a)]);
      if Last(a) == Last(b) {
        script := rest;
      } else {
        var t := Init(b) + [Last(a)];
        assert t[..|b| - 1] + [Last(b)] + t[|b|..] == b;
        TurnsThen(a, rest, t, Substitute(|b| - 1, Last(b)));
        script := rest + [Substitute(|b| - 1, Last(b))];
      }
    }
  }

  /** The recurrence is the length of a shortest script, and the only such number. */
  lemma DistIsShortestScriptLength(a: string, b: string, d: nat)
    ensures IsShortestScriptLength(a, b, d) <==> d == Dist(a, b)
  {
    var best := ShortestScript(a, b);
    forall script | Turns(a, script, b) ensures Dist(a, b) <= |script| {
      NoScriptIsShorter(a, script, b);
    }
  }

  // ---------- The loop ----------

  /** One cell of the table. */
  lemma NextCell(a: string, b: string, i: nat, j: nat)
    requires i < |a| && j < |b|
    ensures Dist(a[..i + 1], b[..j + 1])
         == if a[i] == b[j] then Dist(a[..i], b[..j])
            else Min3(Dist(a[..i], b[..j]), Dist(a[..i], b[..j + 1]), Dist(a[..i + 1], b[..j])) + 1
  {
    assert a[..i + 1] == a[..i] + [a[i]];
    assert b[..j + 1] == b[..j] + [b[j]];
    UnfoldSnoc(a[..i], a[i], b[..j], b[j]);
  }

  /** The nested loops over two rows; `last` and `cur` are value arrays in the source, too. */
  method Distance(firstString: string, secondString: string) returns (validDistance: nat)
    ensures IsShortestScriptLength(firstString, secondString, validDistance)
  {
    var last: seq<nat> := seq(|secondString| + 1, k requires 0 <= k => k);
    for i := 0 to |firstString|
      invariant |last| == |secondString| + 1
      invariant forall j :: 0 <= j <= |secondString| ==> last[j] == Dist(firstString[..i], secondString[..j])
    {
      var cur: seq<nat> := [i + 1] + seq(|secondString|, _ => 0);
      for j := 0 to |secondString|
        invariant |cur| == |secondString| + 1
        invariant forall k :: 0 <= k <= j ==> cur[k] == Dist(firstString[..i + 1], secondString[..k])
      {
        NextCell(firstString, secondString, i, j);
        cur := cur[j + 1 := if firstString[i] == secondString[j] then last[j]
                            else Min3(last[j], last[j + 1], cur[j]) + 1];
      }
      last := cur;
    }
    validDistance := last[|last| - 1];
    assert firstString[..|firstString|] == firstString && secondString[..|secondString|] == secondString;
    DistIsShortestScriptLength(firstString, secondString, validDistance);
  }

  // ---------- The score ----------

  /** A floating-point quotient that is 0/0 is not a number and equals nothing, itself included. */
  datatype Score = NotANumber | Value(r: real)

  /** The strings that are compared. `lower` is the platform's lower-casing. */
  function Normalised(s: string, ignoreCase: bool, trim: bool, lower: string -> string): string {
    var cased := if ignoreCase then lower(s) else s;
    if trim then Trimmed(cased) else cased
  }

  function MaxLength(x: string, y: string): (m: nat)
    ensures |x| <= m && |y| <= m && (m == |x| || m == |y|)
  {
    if |x| < |y| then |y| else |x|
  }

  /** The share of the longer text that needs no edit; 0/0 when both are empty. */
  function Similarity(distance: nat, longest: nat): Score {
    if longest == 0 then NotANumber else Value(1.0 - distance as real / longest as real)
  }

  lemma SimilarityRange(d: nat, m: nat)
    requires 0 < m && d <= m
    ensures 0.0 <= Similarity(d, m).r <= 1.0
    ensures Similarity(d, m).r == 1.0 <==> d == 0
  {
    var n, e := m as real, d as real;
    var q := e / n;
    assert q * n == e;
  }

  /** The score times the longer length is what needs no edit. */
  lemma SimilarityExactly(d: nat, m: nat)
    requires 0 < m
    ensures Similarity(d, m).Value? && Similarity(d, m).r * m as real == (m - d) as real
  {
    var n, e := m as real, d as real;
    var q := e / n;
    assert q * n == e;
    assert (1.0 - q) * n == n - q * n;
  }

  /** What is compared: the lower-cased or the given string, less the blanks at both its ends if trimming is asked
      for. */
  lemma NormalisedExactly(s: string, ignoreCase: bool, trim: bool, lower: string -> string)
    returns (front: string, back: string)
    ensures var r := Normalised(s, ignoreCase, trim, lower);
      && (if ignoreCase then lower(s) else s) == front + r + back
      && (forall i :: 0 <= i < |front| ==> IsWhitespace(front[i]))
      && (forall i :: 0 <= i < |back| ==> IsWhitespace(back[i]))
      && (trim && r != [] ==> !IsWhitespace(r[0]) && !IsWhitespace(r[|r| - 1]))
      && (!trim ==> front == [] && back == [])
  {
    var cased := if ignoreCase then lower(s) else s;
    if trim {
      front, back := TrimmedSplits(cased);
      BlankExactly(front);
      BlankExactly(back);
    } else {
      front, back := [], [];
      assert [] + cased + [] == cased;
    }
  }

  /** Within [0, 1] unless both compared strings are empty, and 1 on equal strings alone. */
  lemma ScoreMeaning(x: string, y: string)
    ensures var score := Similarity(Dist(x, y), MaxLength(x, y));
      && (score.NotANumber? <==> x == [] && y == [])
      && (score == Value(1.0) <==> x == y && x != [])
      && (score.Value? ==> 0.0 <= score.r <= 1.0)
  {
    Metric(x, y, y);
    if MaxLength(x, y) != 0 {
      SimilarityRange(Dist(x, y), MaxLength(x, y));
    }
  }

  method LevenshteinDistanceScore(self: string, other: string, lower: string -> string,
                                  ignoreCase: bool := true, trim: bool := true)
    returns (score: Score)
    ensures var x, y := Normalised(self, ignoreCase, trim, lower), Normalised(other, ignoreCase, trim, lower);
      && score == Similarity(Dist(x, y), MaxLength(x, y))
      && (score.NotANumber? <==> x == [] && y == [])
      && (score == Value(1.0) <==> x == y && x != [])
      && (score.Value? ==> 0.0 <= score.r <= 1.0)
  {
    var firstString, secondString := self, other;
    if ignoreCase {
      firstString, secondString := lower(firstString), lower(secondString);
    }
    if trim {
      firstString, secondString := Trimmed(firstString), Trimmed(secondString);
    }
    var validDistance := Distance(firstString, secondString);
    DistIsShortestScriptLength(firstString, secondString, validDistance);
    ScoreMeaning(firstString, secondString);
    score := Similarity(validDistance, MaxLength(firstString, secondString));
  }
}
