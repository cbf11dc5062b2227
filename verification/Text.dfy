/** Go's string helpers on code points. Case mappings of the characters outside
    ASCII are parameters, but for the two whose lower case is an ASCII letter
    and the two that fold to one. */
module Text {
  const DOTTED_I := '\U{0130}'
  const LONG_S := '\U{017F}'
  const KELVIN := '\U{212A}'

  predicate Ascii(c: char) { c < '\U{0080}' }

  /** Lower case of the characters outside ASCII that stay outside it. */
  type Mapping = char -> char

  function AsciiLower(c: char): char { if 'A' <= c <= 'Z' then c + ('a' - 'A') else c }

  function LowerChar(c: char, other: Mapping): (l: char)
    ensures Ascii(l) && l !in "ik" ==> Ascii(c)
  {
    if Ascii(c) then AsciiLower(c)
    else if c == DOTTED_I then 'i'
    else if c == KELVIN then 'k'
    else if Ascii(other(c)) then c else other(c)
  }

  function Lower(s: string, other: Mapping): (l: string)
    ensures |l| == |s| && forall i | 0 <= i < |s| :: l[i] == LowerChar(s[i], other)
  {
    seq(|s|, i requires 0 <= i < |s| => LowerChar(s[i], other))
  }

  /** The representative of the characters that fold together. */
  function Folded(c: char, fold: Mapping): char {
    if Ascii(c) then AsciiLower(c)
    else if c == KELVIN then 'k'
    else if c == LONG_S then 's'
    else if c == DOTTED_I || Ascii(fold(c)) then c else fold(c)
  }

  predicate EqualFold(a: string, b: string, fold: Mapping) {
    |a| == |b| && forall i | 0 <= i < |a| :: Folded(a[i], fold) == Folded(b[i], fold)
  }

  predicate Space(c: char) {
    || '\t' <= c <= '\r' || c == ' ' || c == '\U{0085}' || c == '\U{00A0}' || c == '\U{1680}'
    || '\U{2000}' <= c <= '\U{200A}' || c == '\U{2028}' || c == '\U{2029}' || c == '\U{202F}'
    || c == '\U{205F}' || c == '\U{3000}'
  }

  function TrimLeft(s: string): string { if s != [] && Space(s[0]) then TrimLeft(s[1..]) else s }

  function TrimRight(s: string): string {
    if s != [] && Space(s[|s| - 1]) then TrimRight(s[..|s| - 1]) else s
  }

  function TrimSpace(s: string): string { TrimRight(TrimLeft(s)) }

  predicate ContainsAny(s: string, chars: string) { exists c | c in s :: c in chars }

  /** The first and the last position of a character, |s| and -1 if none. */
  function First(s: string, c: char): (i: nat)
    ensures i <= |s| && (i < |s| ==> s[i] == c) && forall k | 0 <= k < i :: s[k] != c
  {
    if s == [] || s[0] == c then 0 else 1 + First(s[1..], c)
  }

  function Last(s: string, c: char): (i: int)
    ensures -1 <= i < |s| && (i >= 0 ==> s[i] == c) && c !in s[i + 1..]
  {
    if s == [] then -1 else if s[|s| - 1] == c then |s| - 1 else Last(s[..|s| - 1], c)
  }

  function Replace(s: string, old_: char, new_: char): (r: string)
    ensures |r| == |s| && forall i | 0 <= i < |s| :: r[i] == if s[i] == old_ then new_ else s[i]
  {
    seq(|s|, i requires 0 <= i < |s| => if s[i] == old_ then new_ else s[i])
  }

  /** Trimming reaches no further than a character that is no space. */
  lemma {:induction false} TrimBefore(front: string, rest: string)
    requires rest != [] && !Space(rest[0]) && !Space(rest[|rest| - 1])
    ensures TrimSpace(front + rest) == TrimLeft(front) + rest
  {
    if front == [] || !Space(front[0]) {
      assert TrimLeft(front + rest) == front + rest by { assert front == [] ==> front + rest == rest; }
      assert (front + rest)[|front + rest| - 1] == rest[|rest| - 1];
    } else {
      assert (front + rest)[1..] == front[1..] + rest;
      TrimBefore(front[1..], rest);
    }
  }

  predicate AllSpace(s: string) { forall i | 0 <= i < |s| :: Space(s[i]) }

  /** Text with no space at either end. */
  predicate Bare(s: string) { s == "" || (!Space(s[0]) && !Space(s[|s| - 1])) }

  lemma {:induction false} TrimLeftCuts(s: string) returns (before: string)
    ensures s == before + TrimLeft(s) && AllSpace(before) && (TrimLeft(s) == "" || !Space(TrimLeft(s)[0]))
  {
    hide Space;
    before := "";
    if s != "" && Space(s[0]) {
      var more := TrimLeftCuts(s[1..]);
      before := [s[0]] + more;
      assert s == [s[0]] + s[1..];
    }
  }

  lemma {:induction false} TrimRightCuts(s: string) returns (after: string)
    ensures s == TrimRight(s) + after && AllSpace(after)
    ensures TrimRight(s) == "" || !Space(TrimRight(s)[|TrimRight(s)| - 1])
  {
    hide Space;
    after := "";
    if s != "" && Space(s[|s| - 1]) {
      var more := TrimRightCuts(s[..|s| - 1]);
      after := more + [s[|s| - 1]];
      assert s == s[..|s| - 1] + [s[|s| - 1]];
    }
  }

  lemma {:induction false} TrimsLeft(before: string, s: string)
    requires AllSpace(before) && (s == "" || !Space(s[0]))
    ensures TrimLeft(before + s) == s
  {
    if before == "" {
      assert before + s == s;
    } else {
      assert (before + s)[0] == before[0] && (before + s)[1..] == before[1..] + s;
      TrimsLeft(before[1..], s);
    }
  }

  lemma {:induction false} TrimsRight(s: string, after: string)
    requires AllSpace(after) && (s == "" || !Space(s[|s| - 1]))
    ensures TrimRight(s + after) == s
  {
    if after == "" {
      assert s + after == s;
    } else {
      var all := s + after;
      assert all[|all| - 1] == after[|after| - 1] && all[..|all| - 1] == s + after[..|after| - 1];
      TrimsRight(s, after[..|after| - 1]);
    }
  }

  ghost predicate Between(s: string, t: string) {
    exists before, after :: AllSpace(before) && AllSpace(after) && s == before + t + after
  }

  lemma TrimLeavesBare(s: string)
    ensures Bare(TrimSpace(s)) && Between(s, TrimSpace(s))
  {
    hide Space, TrimLeft, TrimRight, AllSpace;
    var before := TrimLeftCuts(s);
    var after := TrimRightCuts(TrimLeft(s));
    var t := TrimSpace(s);
    assert before + (t + after) == before + t + after;
    assert t != "" ==> t[0] == (t + after)[0];
  }

  /** Trimming leaves exactly what is between the spaces at the ends. */
  lemma TrimExactly(s: string, t: string)
    ensures TrimSpace(s) == t <==> Bare(t) && Between(s, t)
  {
    hide Space, TrimSpace, Bare, AllSpace;
    TrimLeavesBare(s);
    if Bare(t) && Between(s, t) {
      var before, after :| AllSpace(before) && AllSpace(after) && s == before + t + after;
      TrimmedBetween(before, t, after);
    }
  }

  lemma TrimmedBetween(before: string, t: string, after: string)
    requires AllSpace(before) && AllSpace(after) && Bare(t)
    ensures TrimSpace(before + t + after) == t
  {
    if t == "" {
      var s := before + after;
      assert before + t + after == s && s + "" == s && AllSpace(s);
      TrimsLeft(s, "");
    } else {
      assert before + t + after == before + (t + after) && (t + after)[0] == t[0];
      TrimsLeft(before, t + after);
      TrimsRight(t, after);
    }
  }

  /** Equal after lower-casing and equal under folding are the same thing for
      strings whose lower case is ASCII, but for the dotted capital I. */
  lemma FoldsLikeLower(a: string, b: string, other: Mapping, fold: Mapping)
    requires |a| == |b|
    requires forall i | 0 <= i < |a| :: Ascii(LowerChar(a[i], other)) && Ascii(LowerChar(b[i], other))
    ensures EqualFold(a, b, fold) <==>
            Lower(a, other) == Lower(b, other) && forall i | 0 <= i < |a| :: a[i] == DOTTED_I <==> b[i] == DOTTED_I
  {
    forall i | 0 <= i < |a|
      ensures Folded(a[i], fold) == Folded(b[i], fold) <==>
              LowerChar(a[i], other) == LowerChar(b[i], other) && (a[i] == DOTTED_I <==> b[i] == DOTTED_I)
    {
      FoldsLikeLowerChar(a[i], b[i], other, fold);
    }
    var la, lb := Lower(a, other), Lower(b, other);
    if la == lb {
      forall i | 0 <= i < |a| ensures LowerChar(a[i], other) == LowerChar(b[i], other) {
        assert la[i] == lb[i];
      }
    }
  }

  /** What has a small letter as its lower case, and what folds to it: the letter, its
      capital, and of other characters only the dotted capital I, the Kelvin sign and
      the long s. */
  lemma CaseExactly(c: char, l: char, other: Mapping, fold: Mapping)
    requires 'a' <= l <= 'z'
    ensures LowerChar(c, other) == l <==>
            c == l || c as int == l as int - 32 || (l == 'i' && c == DOTTED_I) || (l == 'k' && c == KELVIN)
    ensures Folded(c, fold) == l <==>
            c == l || c as int == l as int - 32 || (l == 'k' && c == KELVIN) || (l == 's' && c == LONG_S)
  {
  }

  lemma FoldsLikeLowerChar(a: char, b: char, other: Mapping, fold: Mapping)
    requires Ascii(LowerChar(a, other)) && Ascii(LowerChar(b, other))
    ensures Folded(a, fold) == Folded(b, fold) <==>
            LowerChar(a, other) == LowerChar(b, other) && (a == DOTTED_I <==> b == DOTTED_I)
  {
  }
}
