/** Characters, and the trimming of `.whitespacesAndNewlines`. */
module Characters {

  predicate IsWhitespace(c: char) {
    var u := c as int;
    || 0x09 <= u <= 0x0D || u == 0x20 || u == 0x85 || u == 0xA0 || u == 0x1680 || 0x2000 <= u <= 0x200A
    || u == 0x2028 || u == 0x2029 || u == 0x202F || u == 0x205F || u == 0x3000
  }

  function TrimmedFront(s: string): string {
    if s != [] && IsWhitespace(s[0]) then TrimmedFront(s[1..]) else s
  }

  function TrimmedBack(s: string): string {
    if s != [] && IsWhitespace(s[|s| - 1]) then TrimmedBack(s[..|s| - 1]) else s
  }

  function Trimmed(s: string): string {
    TrimmedBack(TrimmedFront(s))
  }

  function Kept(c: char): string {
    if IsWhitespace(c) then [] else [c]
  }

  /** The characters that are not whitespace, in order. */
  function NonBlank(s: string): string {
    if s == [] then [] else Kept(s[0]) + NonBlank(s[1..])
  }

  lemma {:induction false} NonBlankConcat(a: string, b: string)
    ensures NonBlank(a + b) == NonBlank(a) + NonBlank(b)
  {
    if a == [] {
      assert a + b == b;
    } else {
      assert (a + b)[0] == a[0] && (a + b)[1..] == a[1..] + b;
      calc {
        NonBlank(a + b);
        Kept(a[0]) + NonBlank(a[1..] + b);
        { NonBlankConcat(a[1..], b); }
        Kept(a[0]) + (NonBlank(a[1..]) + NonBlank(b));
        (Kept(a[0]) + NonBlank(a[1..])) + NonBlank(b);
      }
    }
  }

  lemma Regrouped(a: string, b: string, c: string)
    ensures (a + b) + c == a + (b + c)
  {}

  lemma {:induction false} TrimmedFrontSplits(s: string) returns (front: string)
    ensures s == front + TrimmedFront(s) && NonBlank(front) == []
    ensures TrimmedFront(s) != [] ==> !IsWhitespace(TrimmedFront(s)[0])
  {
    if s != [] && IsWhitespace(s[0]) {
      front := TrimmedFrontSplits(s[1..]);
      front := [s[0]] + front;
    } else {
      front := [];
    }
  }

  lemma OneBlankMore(s: string, blank: char)
    requires IsWhitespace(blank) && NonBlank(s) == []
    ensures NonBlank(s + [blank]) == []
  {
    NonBlankConcat(s, [blank]);
  }

  lemma {:induction false} TrimmedBackSplits(s: string) returns (back: string)
    ensures s == TrimmedBack(s) + back && NonBlank(back) == []
    ensures TrimmedBack(s) != [] ==> !IsWhitespace(TrimmedBack(s)[|TrimmedBack(s)| - 1])
  {
    if s != [] && IsWhitespace(s[|s| - 1]) {
      var init, last := s[..|s| - 1], [s[|s| - 1]];
      var rest := TrimmedBackSplits(init);
      back := rest + last;
      OneBlankMore(rest, s[|s| - 1]);
      Regrouped(TrimmedBack(init), rest, last);
    } else {
      back := [];
    }
  }

  /** Trimming takes blanks off both ends and nothing else. */
  lemma {:induction false} TrimmedSplits(s: string) returns (front: string, back: string)
    ensures s == front + Trimmed(s) + back && NonBlank(front) == [] && NonBlank(back) == []
    ensures Trimmed(s) != [] ==> !IsWhitespace(Trimmed(s)[0]) && !IsWhitespace(Trimmed(s)[|Trimmed(s)| - 1])
  {
    front := TrimmedFrontSplits(s);
    back := TrimmedBackSplits(TrimmedFront(s));
    var f, t := TrimmedFront(s), Trimmed(s);
    assert s == front + t + back by {
      Regrouped(front, t, back);
    }
    if t != [] {
      assert f[0] == t[0];
    }
  }

  /** Nothing but blanks. */
  lemma {:induction false} BlankExactly(s: string)
    ensures NonBlank(s) == [] <==> forall i :: 0 <= i < |s| ==> IsWhitespace(s[i])
  {
    if s != [] {
      BlankExactly(s[1..]);
    }
  }

  lemma TrimmedKeeps(s: string)
    ensures NonBlank(s) == NonBlank(Trimmed(s))
    ensures Trimmed(s) != [] ==> NonBlank(s) != []
  {
    var front, back := TrimmedSplits(s);
    var t := Trimmed(s);
    NonBlankConcat(front + t, back);
    NonBlankConcat(front, t);
    assert NonBlank(s) == [] + NonBlank(t) + [];
    if t != [] {
      assert Kept(t[0]) == [t[0]];
    }
  }
}
