/** `MutableCollection.shuffle`: the Fisher-Yates shuffle, as a function of the random draws. */
module Shuffle {

  /** One draw for each step: the k-th is below the number of elements not yet placed. */
  predicate ValidDraws(draws: seq<nat>, count: nat) {
    && |draws| == (if count == 0 then 0 else count - 1)
    && forall k :: 0 <= k < |draws| ==> draws[k] < count - k
  }

  function Swapped<T>(s: seq<T>, i: nat, j: nat): (r: seq<T>)
    requires i < |s| && j < |s|
    ensures |r| == |s|
  {
    s[i := s[j]][j := s[i]]
  }

  /** The first draw picks the first element out of all of them; the others shuffle the rest. */
  function Shuffled<T>(s: seq<T>, draws: seq<nat>): (r: seq<T>)
    requires ValidDraws(draws, |s|)
    ensures |r| == |s|
    decreases |s|
  {
    if |s| <= 1 then s
    else
      var t := Swapped(s, 0, draws[0]);
      [t[0]] + Shuffled(t[1..], draws[1..])
  }

  // ---------- The loop ----------

  /** The first draw places the first element for good. */
  lemma FirstPlaced<T>(done: seq<T>, rest: seq<T>, later: seq<nat>)
    requires |rest| > 1 && ValidDraws(later, |rest|)
    ensures ValidDraws(later[1..], |rest| - 1)
    ensures var t := Swapped(rest, 0, later[0]);
      done + Shuffled(rest, later) == (done + [t[0]]) + Shuffled(t[1..], later[1..])
  {}

  lemma SwappedBehind<T>(done: seq<T>, rest: seq<T>, d: nat)
    requires d < |rest|
    ensures Swapped(done + rest, |done|, |done| + d) == done + Swapped(rest, 0, d)
    ensures done + Swapped(rest, 0, d) == (done + [Swapped(rest, 0, d)[0]]) + Swapped(rest, 0, d)[1..]
  {}

  method SwapAt<T>(a: array<T>, i: nat, j: nat)
    requires i < a.Length && j < a.Length
    modifies a
    ensures a[..] == Swapped(old(a[..]), i, j)
  {
    a[i], a[j] := a[j], a[i];
  }

  /** `swapAt` in a loop. The draws come from the platform's generator. */
  method ShuffleInPlace<T>(a: array<T>, draws: seq<nat>)
    requires ValidDraws(draws, a.Length)
    modifies a
    ensures a[..] == Shuffled(old(a[..]), draws)
  {
    var c := a.Length;
    if c <= 1 {
      return;
    }
    ghost var done, rest, later := [], a[..], draws;
    for firstUnshuffled := 0 to c - 1
      invariant a[..] == done + rest && |done| == firstUnshuffled
      invariant later == draws[firstUnshuffled..] && ValidDraws(later, |rest|)
      invariant Shuffled(old(a[..]), draws) == done + Shuffled(rest, later)
    {
      var i := firstUnshuffled + draws[firstUnshuffled];
      assert draws[firstUnshuffled] == later[0] && later[1..] == draws[firstUnshuffled + 1..];
      FirstPlaced(done, rest, later);
      SwappedBehind(done, rest, later[0]);
      SwapAt(a, firstUnshuffled, i);
      ghost var t := Swapped(rest, 0, later[0]);
      assert a[..] == done + t == (done + [t[0]]) + t[1..];
      done, rest, later := done + [t[0]], t[1..], later[1..];
    }
    assert |rest| == 1 && Shuffled(rest, later) == rest;
  }

  /** A copy is shuffled; the sequence itself stays. */
  method ShuffledCopy<T>(s: seq<T>, draws: seq<nat>) returns (result: seq<T>)
    requires ValidDraws(draws, |s|)
    ensures result == Shuffled(s, draws)
  {
    var a := new T[|s|](i requires 0 <= i < |s| => s[i]);
    assert a[..] == s;
    ShuffleInPlace(a, draws);
    result := a[..];
  }

  // ---------- Permutations ----------

  lemma SwappedMultiset<T>(s: seq<T>, i: nat, j: nat)
    requires i < |s| && j < |s|
    ensures multiset(Swapped(s, i, j)) == multiset(s)
  {}

  lemma HeadAndTail<T>(s: seq<T>)
    requires s != []
    ensures multiset(s) == multiset{s[0]} + multiset(s[1..])
  {
    assert s == [s[0]] + s[1..];
  }

  /** The first draw is the index of the element that comes first; the element that was first takes its place, and the
      others are shuffled by the later draws. */
  lemma FirstDrawn<T>(s: seq<T>, draws: seq<nat>)
    requires |s| > 1 && ValidDraws(draws, |s|)
    ensures var d, r := draws[0], Shuffled(s, draws);
      r[0] == s[d] && r[1..] == Shuffled(s[d := s[0]][1..], draws[1..])
  {
    var d := draws[0];
    assert Swapped(s, 0, d)[1..] == s[d := s[0]][1..];
  }

  /** Whatever is drawn, the result is a permutation. */
  lemma {:induction false} ShuffledIsPermutation<T>(s: seq<T>, draws: seq<nat>)
    requires ValidDraws(draws, |s|)
    ensures multiset(Shuffled(s, draws)) == multiset(s)
    decreases |s|
  {
    if |s| > 1 {
      var t := Swapped(s, 0, draws[0]);
      ShuffledIsPermutation(t[1..], draws[1..]);
      SwappedMultiset(s, 0, draws[0]);
      HeadAndTail(t);
    }
  }

  ghost predicate Distinct<T>(s: seq<T>) {
    forall i, j :: 0 <= i < j < |s| ==> s[i] != s[j]
  }

  /** Different draws give different results, when no element occurs twice. */
  lemma {:induction false} DrawsAreDetermined<T>(s: seq<T>, d: seq<nat>, e: seq<nat>)
    requires Distinct(s) && ValidDraws(d, |s|) && ValidDraws(e, |s|) && Shuffled(s, d) == Shuffled(s, e)
    ensures d == e
    decreases |s|
  {
    if |s| > 1 {
      var t, u := Swapped(s, 0, d[0]), Swapped(s, 0, e[0]);
      assert Shuffled(s, d)[0] == s[d[0]] && Shuffled(s, e)[0] == s[e[0]];
      assert d[0] == e[0];
      assert Shuffled(s, d)[1..] == Shuffled(t[1..], d[1..]) && Shuffled(s, e)[1..] == Shuffled(u[1..], e[1..]);
      DrawsAreDetermined(t[1..], d[1..], e[1..]);
      assert d == [d[0]] + d[1..] && e == [e[0]] + e[1..];
    }
  }

  /** Every permutation is the result of some draws. */
  lemma {:induction false} DrawsFor<T>(s: seq<T>, p: seq<T>) returns (draws: seq<nat>)
    requires multiset(p) == multiset(s)
    ensures ValidDraws(draws, |s|) && Shuffled(s, draws) == p
    decreases |s|
  {
    SameLength(p, s);
    if |s| == 0 {
      draws := [];
    } else if |s| == 1 {
      draws := [];
      assert p[0] in multiset(s);
      assert p == s;
    } else {
      var i := IndexOf(s, p[0], p);
      var t := Swapped(s, 0, i);
      RestIsPermutation(s, p, i);
      var rest := DrawsFor(t[1..], p[1..]);
      draws := [i] + rest;
      Assembled(s, i, rest, p);
    }
  }

  /** A first draw, and draws that turn what it leaves into the rest of `p`. */
  lemma Assembled<T>(s: seq<T>, i: nat, rest: seq<nat>, p: seq<T>)
    requires |s| > 1 && i < |s| && p != [] && s[i] == p[0]
    requires ValidDraws(rest, |s| - 1) && Shuffled(Swapped(s, 0, i)[1..], rest) == p[1..]
    ensures ValidDraws([i] + rest, |s|) && Shuffled(s, [i] + rest) == p
  {}

  lemma IndexOf<T>(s: seq<T>, x: T, p: seq<T>) returns (i: nat)
    requires multiset(p) == multiset(s) && x in p
    ensures i < |s| && s[i] == x
  {
    assert x in multiset(s);
    i :| i < |s| && s[i] == x;
  }

  lemma RestIsPermutation<T>(s: seq<T>, p: seq<T>, i: nat)
    requires multiset(p) == multiset(s) && p != [] && i < |s| && s[i] == p[0]
    ensures multiset(p[1..]) == multiset(Swapped(s, 0, i)[1..])
  {
    var t := Swapped(s, 0, i);
    SwappedMultiset(s, 0, i);
    HeadAndTail(t);
    HeadAndTail(p);
    Cancelled(p[0], multiset(t[1..]), multiset(p[1..]));
  }

  lemma Cancelled<T>(x: T, a: multiset<T>, b: multiset<T>)
    requires multiset{x} + a == multiset{x} + b
    ensures a == b
  {
    assert a == (multiset{x} + a) - multiset{x};
    assert b == (multiset{x} + b) - multiset{x};
  }

  lemma SameLength<T>(p: seq<T>, s: seq<T>)
    requires multiset(p) == multiset(s)
    ensures |p| == |s|
  {
    assert |multiset(p)| == |p| && |multiset(s)| == |s|;
  }

  /** Draws that leave everything in place. */
  function Zeros(count: nat): (draws: seq<nat>)
    ensures ValidDraws(draws, count)
  {
    if count <= 1 then []
    else
      var rest := Zeros(count - 1);
      assert ([0] + rest)[1..] == rest;
      [0] + rest
  }

  lemma {:induction false} ZerosKeep<T>(s: seq<T>)
    ensures Shuffled(s, Zeros(|s|)) == s
  {
    if |s| > 1 {
      var rest := Zeros(|s| - 1);
      assert Swapped(s, 0, 0) == s;
      assert ([0] + rest)[1..] == rest;
      ZerosKeep(s[1..]);
      assert s == [s[0]] + s[1..];
    }
  }

  /** Swapping two equal elements shows nothing: a second draw sequence that leaves everything in place. */
  lemma {:induction false} OtherDraws<T>(s: seq<T>, i: nat, j: nat) returns (draws: seq<nat>)
    requires i < j < |s| && s[i] == s[j]
    ensures ValidDraws(draws, |s|) && Shuffled(s, draws) == s && draws != Zeros(|s|)
    decreases |s|
  {
    if i == 0 {
      ZerosKeep(s[1..]);
      draws := KeepsPlace(s, j, Zeros(|s| - 1));
    } else {
      var tail := s[1..];
      assert tail[i - 1] == s[i] && tail[j - 1] == s[j];
      var rest := OtherDraws(tail, i - 1, j - 1);
      draws := KeepsPlace(s, 0, rest);
    }
  }

  lemma KeepsPlace<T>(s: seq<T>, first: nat, rest: seq<nat>) returns (draws: seq<nat>)
    requires |s| > 1 && first < |s| && s[0] == s[first]
    requires ValidDraws(rest, |s| - 1) && Shuffled(s[1..], rest) == s[1..]
    requires first != 0 || rest != Zeros(|s| - 1)
    ensures ValidDraws(draws, |s|) && Shuffled(s, draws) == s && draws != Zeros(|s|)
  {
    draws := [first] + rest;
    assert Swapped(s, 0, first) == s;
    Assembled(s, first, rest, s);
    assert Zeros(|s|)[0] == 0 && Zeros(|s|)[1..] == Zeros(|s| - 1);
    assert draws[1..] == rest;
  }

  /** No two valid draw sequences give the same result. */
  ghost predicate OneToOne<T>(s: seq<T>) {
    forall d, e :: ValidDraws(d, |s|) && ValidDraws(e, |s|) && Shuffled(s, d) == Shuffled(s, e) ==> d == e
  }

  /** Every permutation, and nothing else, is the result of some draws. */
  lemma ShufflesAreThePermutations<T>(s: seq<T>, p: seq<T>)
    ensures multiset(p) == multiset(s) <==> exists draws :: ValidDraws(draws, |s|) && Shuffled(s, draws) == p
  {
    if multiset(p) == multiset(s) {
      var draws := DrawsFor(s, p);
    }
    forall draws | ValidDraws(draws, |s|) ensures multiset(Shuffled(s, draws)) == multiset(s) {
      ShuffledIsPermutation(s, draws);
    }
  }

  /** From exactly one draw sequence each, if and only if no element occurs twice. */
  lemma OneToOneExactly<T>(s: seq<T>)
    ensures OneToOne(s) <==> Distinct(s)
  {
    if Distinct(s) {
      forall d, e | ValidDraws(d, |s|) && ValidDraws(e, |s|) && Shuffled(s, d) == Shuffled(s, e) ensures d == e {
        DrawsAreDetermined(s, d, e);
      }
    } else {
      var i, j :| 0 <= i < j < |s| && s[i] == s[j];
      var draws := OtherDraws(s, i, j);
      ZerosKeep(s);
    }
  }
}
