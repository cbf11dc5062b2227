/** Glob patterns as the documented grammar of Go's path.Match describes them,
    over strings of code points. */
module Glob {
  import opened Prelude

  datatype Term = Star | Any | Lit(c: char) | Class(negated: bool, ranges: seq<Range>)

  datatype Range = Range(lo: char, hi: char)

  datatype ClassEnd = Bad | Closed(ranges: seq<Range>, next: nat)

  /** The character of a class at `i`, an escaped one included, that another
      character follows. */
  function ClassChar(p: string, i: nat): (r: Option<nat>)
    ensures r.Some? ==> i <= r.value && r.value + 1 < |p|
  {
    if i >= |p| || p[i] == '-' || p[i] == ']' then None
    else
      var k := if p[i] == '\\' then i + 1 else i;
      if k + 1 < |p| then Some(k) else None
  }

  /** The ranges of a class from `i` on, up to its closing bracket. */
  function ParseClass(p: string, i: nat, sofar: seq<Range>): (r: ClassEnd)
    decreases |p| - i
    ensures r.Closed? ==> i < r.next <= |p| && p[r.next - 1] == ']'
  {
    if i < |p| && p[i] == ']' && sofar != [] then Closed(sofar, i + 1)
    else
      match ClassChar(p, i)
      case None => Bad
      case Some(k) =>
        if p[k + 1] != '-' then ParseClass(p, k + 1, sofar + [Range(p[k], p[k])])
        else
          match ClassChar(p, k + 2)
          case None => Bad
          case Some(h) => ParseClass(p, h + 1, sofar + [Range(p[k], p[h])])
  }

  datatype Next = Malformed | Next(term: Term, end: nat)

  /** The term that starts at `i`. */
  function ParseTerm(p: string, i: nat): (r: Next)
    requires i < |p|
    ensures r.Next? ==> i < r.end <= |p|
  {
    match p[i]
    case '*' => Next(Star, i + 1)
    case '?' => Next(Any, i + 1)
    case '\\' => if i + 1 < |p| then Next(Lit(p[i + 1]), i + 2) else Malformed
    case '[' =>
      var negated := i + 1 < |p| && p[i + 1] == '^';
      (match ParseClass(p, if negated then i + 2 else i + 1, [])
       case Bad => Malformed
       case Closed(ranges, next) => Next(Class(negated, ranges), next))
    case c => Next(Lit(c), i + 1)
  }

  function Parse(p: string, i: nat): Option<seq<Term>>
    requires i <= |p|
    decreases |p| - i
  {
    if i == |p| then Some([])
    else
      match ParseTerm(p, i)
      case Malformed => None
      case Next(term, end) =>
        match Parse(p, end)
        case None => None
        case Some(rest) => Some([term] + rest)
  }

  predicate InRanges(c: char, ranges: seq<Range>) { exists r | r in ranges :: r.lo <= c <= r.hi }

  /** Stars and question marks stop at a slash. */
  predicate MatchTerms(terms: seq<Term>, s: string) {
    if terms == [] then s == []
    else
      match terms[0]
      case Star => exists k | 0 <= k <= |s| :: '/' !in s[..k] && MatchTerms(terms[1..], s[k..])
      case Any => s != [] && s[0] != '/' && MatchTerms(terms[1..], s[1..])
      case Lit(c) => s != [] && s[0] == c && MatchTerms(terms[1..], s[1..])
      case Class(negated, ranges) =>
        s != [] && InRanges(s[0], ranges) != negated && MatchTerms(terms[1..], s[1..])
  }

  /** A malformed pattern matches nothing. */
  predicate Matches(p: string, s: string) { Parse(p, 0).Some? && MatchTerms(Parse(p, 0).value, s) }

  // Literal tails.

  /** No character of a glob, and none that could close a class. */
  predicate Literal(s: string) { forall i | 0 <= i < |s| :: s[i] !in "*?[\\]" }

  function Lits(s: string): seq<Term> { seq(|s|, i requires 0 <= i < |s| => Lit(s[i])) }

  lemma {:induction false} LiteralParses(p: string, i: nat)
    requires i <= |p| && Literal(p[i..])
    ensures Parse(p, i) == Some(Lits(p[i..]))
    decreases |p| - i
  {
    if i < |p| {
      assert p[i..][0] == p[i] && p[i..][1..] == p[i + 1..];
      LiteralParses(p, i + 1);
      assert [Lit(p[i])] + Lits(p[i + 1..]) == Lits(p[i..]);
    }
  }

  /** Whatever comes before it, escapes and classes included, a literal tail of
      two or more characters gives up at most its first one as a literal. */
  lemma {:induction false} TailParses(p: string, at: nat, i: nat)
    requires i <= at < |p| && Literal(p[at..]) && Parse(p, i).Some?
    ensures exists front :: Parse(p, i).value == front + Lits(p[at..])
    decreases at - i
  {
    if i == at {
      LiteralParses(p, at);
      assert Parse(p, i).value == [] + Lits(p[at..]);
    } else {
      var n := ParseTerm(p, i);
      TermEnds(p, at, i);
      if n.end <= at {
        TailParses(p, at, n.end);
        var front :| Parse(p, n.end).value == front + Lits(p[at..]);
        assert Parse(p, i).value == ([n.term] + front) + Lits(p[at..]);
      } else {
        assert p[at + 1..] == p[at..][1..];
        LiteralParses(p, at + 1);
        assert [Lit(p[at])] + Lits(p[at + 1..]) == Lits(p[at..]);
        assert Parse(p, i).value == [] + Lits(p[at..]);
      }
    }
  }

  /** A term that starts before a literal tail ends before it, or is an escape
      of the tail's first character. */
  lemma TermEnds(p: string, at: nat, i: nat)
    requires i < at < |p| && Literal(p[at..]) && ParseTerm(p, i).Next?
    ensures var n := ParseTerm(p, i); n.end <= at || n == Next(Lit(p[at]), at + 1)
  {
    forall j | at <= j < |p| ensures p[j] != ']' {
      assert p[at..][j - at] == p[j];
    }
  }

  lemma {:induction false} MatchTail(front: seq<Term>, tail: string, s: string)
    requires MatchTerms(front + Lits(tail), s)
    ensures |s| >= |tail| && s[|s| - |tail|..] == tail
  {
    var terms := front + Lits(tail);
    if front == [] {
      MatchWhole(tail, s);
    } else {
      assert terms[1..] == front[1..] + Lits(tail);
      var k := if front[0] == Star then (var k :| 0 <= k <= |s| && MatchTerms(terms[1..], s[k..]); k) else 1;
      MatchTail(front[1..], tail, s[k..]);
      SameEnd(s, k, tail);
    }
  }

  lemma SameEnd(s: string, k: nat, tail: string)
    requires k <= |s| && |s[k..]| >= |tail|
    ensures s[k..][|s[k..]| - |tail|..] == s[|s| - |tail|..]
  {
  }

  lemma {:induction false} MatchWhole(tail: string, s: string)
    requires MatchTerms([] + Lits(tail), s)
    ensures s == tail
  {
    var terms := Lits(tail);
    assert [] + Lits(tail) == terms;
    if tail != [] {
      assert terms[1..] == [] + Lits(tail[1..]);
      MatchWhole(tail[1..], s[1..]);
      assert s == [s[0]] + s[1..];
    }
  }

  /** Every string a glob with a literal tail matches ends in that tail. */
  lemma TailIsMatched(p: string, at: nat, s: string)
    requires at < |p| && Literal(p[at..]) && Matches(p, s)
    ensures |s| >= |p| - at && s[|s| - (|p| - at)..] == p[at..]
  {
    TailParses(p, at, 0);
    var front :| Parse(p, 0).value == front + Lits(p[at..]);
    MatchTail(front, p[at..], s);
  }

  /** A star before a literal tail matches everything that ends in it. */
  lemma StarMatches(tail: string, s: string)
    requires Literal(tail) && '/' !in s
    ensures Matches("*" + tail, s + tail)
  {
    var p := "*" + tail;
    assert p[1..] == tail;
    LiteralParses(p, 1);
    LitsMatch(tail);
    var terms := Parse(p, 0).value;
    assert terms == [Star] + Lits(tail) && terms[1..] == Lits(tail);
    assert (s + tail)[..|s|] == s && (s + tail)[|s|..] == tail;
  }

  lemma {:induction false} LitsMatch(tail: string)
    ensures MatchTerms(Lits(tail), tail)
  {
    if tail != [] {
      LitsMatch(tail[1..]);
      assert Lits(tail)[1..] == Lits(tail[1..]);
    }
  }
}
