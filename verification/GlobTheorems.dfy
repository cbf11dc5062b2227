/** What glob patterns mean, said without an order of matching: the text is cut
    into one piece per term. And how they are written. */
module GlobTheorems {
  import opened Prelude
  import opened Sequences
  import opened Glob

  // Meaning.

  /** What one term stands for: anything without a slash, any character but a slash,
      a character, or one inside or outside its ranges. */
  predicate Piece(t: Term, p: string) {
    match t
    case Star => '/' !in p
    case Any => |p| == 1 && p[0] != '/'
    case Lit(c) => p == [c]
    case Class(negated, ranges) => |p| == 1 && (negated <==> forall r | r in ranges :: p[0] < r.lo || r.hi < p[0])
  }

  function Concat(pieces: seq<string>): string { if pieces == [] then [] else pieces[0] + Concat(pieces[1..]) }

  predicate Fits(terms: seq<Term>, pieces: seq<string>, s: string) {
    |pieces| == |terms| && Concat(pieces) == s && forall i | 0 <= i < |terms| :: Piece(terms[i], pieces[i])
  }

  lemma FitsCons(terms: seq<Term>, p: string, more: seq<string>, s: string)
    requires terms != [] && Piece(terms[0], p) && Fits(terms[1..], more, s)
    ensures Fits(terms, [p] + more, p + s)
  {
    hide Piece;
    var pieces := [p] + more;
    assert pieces[1..] == more;
    forall i | 0 <= i < |terms| ensures Piece(terms[i], pieces[i]) {
      if i > 0 { assert terms[1..][i - 1] == terms[i] && more[i - 1] == pieces[i]; }
    }
  }

  lemma {:induction false} MatchFits(terms: seq<Term>, s: string) returns (pieces: seq<string>)
    requires MatchTerms(terms, s)
    ensures Fits(terms, pieces, s)
  {
    if terms == [] {
      pieces := [];
    } else {
      FirstPiece(terms, s);
      var k :| 0 <= k <= |s| && Piece(terms[0], s[..k]) && MatchTerms(terms[1..], s[k..]);
      var more := MatchFits(terms[1..], s[k..]);
      FitsCons(terms, s[..k], more, s[k..]);
      Slices(s, k, k);
      pieces := [s[..k]] + more;
    }
  }

  lemma FirstPiece(terms: seq<Term>, s: string)
    requires terms != []
    ensures MatchTerms(terms, s) <==>
            exists k | 0 <= k <= |s| :: Piece(terms[0], s[..k]) && MatchTerms(terms[1..], s[k..])
  {
    if terms[0].Star? {
    } else {
      if s != [] { assert s[..1][0] == s[0] && s[..1] == [s[0]]; }
      forall k | 0 <= k <= |s| && Piece(terms[0], s[..k]) ensures k == 1 {}
    }
  }

  lemma {:induction false} FitsMatch(terms: seq<Term>, pieces: seq<string>, s: string)
    requires Fits(terms, pieces, s)
    ensures MatchTerms(terms, s)
  {
    if terms != [] {
      var p, rest := pieces[0], Concat(pieces[1..]);
      hide MatchTerms, Piece;
      forall i | 0 <= i < |terms| - 1 ensures Piece(terms[1..][i], pieces[1..][i]) {
        assert Piece(terms[i + 1], pieces[i + 1]);
      }
      FitsMatch(terms[1..], pieces[1..], rest);
      Glue(p, rest);
      FirstPiece(terms, s);
      assert Piece(terms[0], s[..|p|]) && MatchTerms(terms[1..], s[|p|..]);
    } else {
      assert pieces == [];
    }
  }

  /** A pattern matches exactly what can be cut into one piece for each of its terms. */
  lemma MatchesExactly(terms: seq<Term>, s: string)
    ensures MatchTerms(terms, s) <==> exists pieces :: Fits(terms, pieces, s)
  {
    hide MatchTerms, Fits;
    if MatchTerms(terms, s) { var pieces := MatchFits(terms, s); }
    if exists pieces :: Fits(terms, pieces, s) {
      var pieces :| Fits(terms, pieces, s);
      FitsMatch(terms, pieces, s);
    }
  }

  // Grammar.

  /** A character of a class: escaped, or itself if it means nothing there. */
  predicate CharSpelled(c: char, s: string) { s == ['\\', c] || (s == [c] && c !in "\\-]") }

  /** A single character, or two with a hyphen between them. */
  ghost predicate RangeSpelled(r: Range, s: string) {
    || (r.lo == r.hi && CharSpelled(r.lo, s))
    || exists a, b :: CharSpelled(r.lo, a) && CharSpelled(r.hi, b) && s == a + "-" + b
  }

  ghost predicate RangesSpelled(ranges: seq<Range>, s: string) {
    if ranges == [] then s == ""
    else exists k | 0 <= k <= |s| :: RangeSpelled(ranges[0], s[..k]) && RangesSpelled(ranges[1..], s[k..])
  }

  /** A class has brackets, a caret if it is negated, and one range at least. */
  ghost predicate ClassSpelled(negated: bool, ranges: seq<Range>, s: string) {
    && ranges != []
    && exists inner ::
         && RangesSpelled(ranges, inner) && s == (if negated then "[^" else "[") + inner + "]"
         && (!negated ==> inner != "" && inner[0] != '^')
  }

  ghost predicate TermSpelled(t: Term, s: string) {
    match t
    case Star => s == "*"
    case Any => s == "?"
    case Lit(c) => s == ['\\', c] || (s == [c] && c !in "*?[\\")
    case Class(negated, ranges) => ClassSpelled(negated, ranges, s)
  }

  ghost predicate Spelled(terms: seq<Term>, pieces: seq<string>, p: string) {
    |pieces| == |terms| && Concat(pieces) == p && forall i | 0 <= i < |terms| :: TermSpelled(terms[i], pieces[i])
  }

  /** At `i` the text goes on like this. */
  predicate At(p: string, i: nat, s: string) { i + |s| <= |p| && p[i..i + |s|] == s }

  lemma AtParts(p: string, i: nat, a: string, b: string)
    ensures At(p, i, a + b) <==> At(p, i, a) && At(p, i + |a|, b)
  {
    Glue(a, b);
    if i + |a| + |b| <= |p| {
      var t := p[i..i + |a| + |b|];
      assert t[..|a|] == p[i..i + |a|] && t[|a|..] == p[i + |a|..i + |a| + |b|];
      assert t == t[..|a|] + t[|a|..];
    }
  }

  lemma AtFirst(p: string, i: nat, s: string)
    requires At(p, i, s) && s != ""
    ensures i < |p| && p[i] == s[0] && (|s| > 1 ==> i + 1 < |p| && p[i + 1] == s[1])
  {
    assert p[i..i + |s|][0] == s[0];
    assert |s| > 1 ==> p[i..i + |s|][1] == s[1];
  }

  // From a spelling to what is read.

  lemma ReadChar(p: string, i: nat, c: char, s: string)
    requires CharSpelled(c, s) && At(p, i, s) && i + |s| < |p|
    ensures var k := i + |s| - 1; ClassChar(p, i) == Some(k) && p[k] == c && p[i] != ']' && p[i] != '-'
  {
    AtFirst(p, i, s);
  }

  lemma ReadOne(p: string, i: nat, c: char, s: string, sofar: seq<Range>)
    requires CharSpelled(c, s) && At(p, i, s) && i + |s| < |p| && p[i + |s|] != '-'
    ensures ParseClass(p, i, sofar) == ParseClass(p, i + |s|, sofar + [Range(c, c)])
    ensures p[i] != ']' && p[i] != '-'
  {
    hide CharSpelled, ClassChar, At;
    ReadChar(p, i, c, s);
  }

  lemma ReadTwo(p: string, i: nat, lo: char, hi: char, a: string, b: string, sofar: seq<Range>)
    requires CharSpelled(lo, a) && CharSpelled(hi, b) && At(p, i, a) && At(p, i + |a|, "-") && At(p, i + |a| + 1, b)
    requires i + |a| + 1 + |b| < |p|
    ensures ParseClass(p, i, sofar) == ParseClass(p, i + |a| + 1 + |b|, sofar + [Range(lo, hi)])
    ensures p[i] != ']' && p[i] != '-'
  {
    hide CharSpelled, ClassChar, At;
    AtFirst(p, i + |a|, "-");
    ReadChar(p, i, lo, a);
    ReadChar(p, i + |a| + 1, hi, b);
  }

  lemma ReadRange(p: string, i: nat, r: Range, s: string, sofar: seq<Range>)
    requires RangeSpelled(r, s) && At(p, i, s) && i + |s| < |p| && p[i + |s|] != '-'
    ensures ParseClass(p, i, sofar) == ParseClass(p, i + |s|, sofar + [r])
    ensures p[i] != ']' && p[i] != '-'
  {
    hide CharSpelled, ParseClass, At;
    if r.lo == r.hi && CharSpelled(r.lo, s) {
      ReadOne(p, i, r.lo, s, sofar);
    } else {
      var a, b :| CharSpelled(r.lo, a) && CharSpelled(r.hi, b) && s == a + "-" + b;
      AtParts(p, i, a + "-", b);
      AtParts(p, i, a, "-");
      ReadTwo(p, i, r.lo, r.hi, a, b, sofar);
    }
  }

  lemma RangeStart(r: Range, s: string)
    requires RangeSpelled(r, s)
    ensures s != "" && s[0] != '-' && s[0] != ']'
  {
  }

  lemma RangesStart(ranges: seq<Range>, s: string)
    requires RangesSpelled(ranges, s)
    ensures (s + "]")[0] != '-' && (ranges != [] ==> s != "" && s[0] != ']')
  {
    hide RangeSpelled;
    if ranges != [] {
      var k :| 0 <= k <= |s| && RangeSpelled(ranges[0], s[..k]) && RangesSpelled(ranges[1..], s[k..]);
      RangeStart(ranges[0], s[..k]);
      assert s[..k][0] == s[0];
    }
  }

  lemma ReadClose(p: string, i: nat, sofar: seq<Range>)
    requires At(p, i, "]") && sofar != []
    ensures ParseClass(p, i, sofar) == Closed(sofar, i + 1)
  {
    AtFirst(p, i, "]");
  }

  lemma {:induction false} ReadRanges(p: string, i: nat, ranges: seq<Range>, s: string, sofar: seq<Range>)
    requires RangesSpelled(ranges, s) && At(p, i, s + "]") && sofar + ranges != []
    ensures ParseClass(p, i, sofar) == Closed(sofar + ranges, i + |s| + 1)
    decreases |ranges|
  {
    hide RangeSpelled, ParseClass, At;
    if ranges == [] {
      assert s + "]" == "]" && sofar + ranges == sofar;
      ReadClose(p, i, sofar);
    } else {
      var k :| 0 <= k <= |s| && RangeSpelled(ranges[0], s[..k]) && RangesSpelled(ranges[1..], s[k..]);
      assert s + "]" == s[..k] + (s[k..] + "]");
      AtParts(p, i, s[..k], s[k..] + "]");
      RangesStart(ranges[1..], s[k..]);
      AtFirst(p, i + k, s[k..] + "]");
      ReadRange(p, i, ranges[0], s[..k], sofar);
      ReadRanges(p, i + k, ranges[1..], s[k..], sofar + [ranges[0]]);
      assert sofar + [ranges[0]] + ranges[1..] == sofar + ranges;
    }
  }

  lemma ReadClass(p: string, i: nat, negated: bool, ranges: seq<Range>, s: string)
    requires ClassSpelled(negated, ranges, s) && At(p, i, s) && i < |p|
    ensures ParseTerm(p, i) == Next(Class(negated, ranges), i + |s|)
  {
    hide RangesSpelled, ParseClass, At;
    var open := if negated then "[^" else "[";
    var inner :| && RangesSpelled(ranges, inner) && s == open + inner + "]"
                 && (!negated ==> inner != "" && inner[0] != '^');
    Assoc(open, inner, "]");
    AtParts(p, i, open, inner + "]");
    AtFirst(p, i, open);
    AtFirst(p, i + |open|, inner + "]");
    ReadRanges(p, i + |open|, ranges, inner, []);
    assert [] + ranges == ranges;
  }

  lemma ReadTerm(p: string, i: nat, t: Term, s: string)
    requires TermSpelled(t, s) && At(p, i, s) && i < |p|
    ensures ParseTerm(p, i) == Next(t, i + |s|)
  {
    hide ClassSpelled, ParseClass;
    if t.Class? { ReadClass(p, i, t.negated, t.ranges, s); } else { AtFirst(p, i, s); }
  }

  lemma SomeText(t: Term, s: string)
    requires TermSpelled(t, s)
    ensures s != ""
  {
  }

  lemma {:induction false} ReadTerms(p: string, i: nat, terms: seq<Term>, pieces: seq<string>)
    requires Spelled(terms, pieces, Concat(pieces)) && At(p, i, Concat(pieces)) && i + |Concat(pieces)| == |p|
    ensures Parse(p, i) == Some(terms)
    decreases |terms|
  {
    hide TermSpelled, ParseTerm, At;
    if terms != [] {
      var first, more := pieces[0], pieces[1..];
      SomeText(terms[0], first);
      AtParts(p, i, first, Concat(more));
      ReadTerm(p, i, terms[0], first);
      forall k | 0 <= k < |terms| - 1 ensures TermSpelled(terms[1..][k], more[k]) {
        assert TermSpelled(terms[k + 1], pieces[k + 1]);
      }
      ReadTerms(p, i + |first|, terms[1..], more);
      assert terms == [terms[0]] + terms[1..];
    } else {
      assert pieces == [];
    }
  }

  // From what is read to a spelling.

  lemma CharRead(p: string, i: nat)
    requires ClassChar(p, i).Some?
    ensures var k := ClassChar(p, i).value; CharSpelled(p[k], p[i..k + 1])
  {
    var k := ClassChar(p, i).value;
    if k == i { assert p[i..k + 1] == [p[k]]; } else { assert p[i..k + 1] == ['\\', p[k]]; }
  }

  lemma RangesCons(r: Range, more: seq<Range>, a: string, b: string)
    requires RangeSpelled(r, a) && RangesSpelled(more, b)
    ensures RangesSpelled([r] + more, a + b)
  {
    hide RangeSpelled;
    Glue(a, b);
    assert ([r] + more)[1..] == more;
    assert RangeSpelled(([r] + more)[0], (a + b)[..|a|]) && RangesSpelled(more, (a + b)[|a|..]);
  }

  /** One step of reading a class. */
  lemma ClassStep(p: string, i: nat, sofar: seq<Range>)
    requires ParseClass(p, i, sofar).Closed? && !(i < |p| && p[i] == ']' && sofar != [])
    ensures ClassChar(p, i).Some?
    ensures var k := ClassChar(p, i).value;
            if p[k + 1] != '-' then ParseClass(p, i, sofar) == ParseClass(p, k + 1, sofar + [Range(p[k], p[k])])
            else && ClassChar(p, k + 2).Some?
                 && var h := ClassChar(p, k + 2).value;
                    ParseClass(p, i, sofar) == ParseClass(p, h + 1, sofar + [Range(p[k], p[h])])
  {
    hide ClassChar;
  }

  lemma PairSpelled(lo: char, hi: char, a: string, b: string)
    requires CharSpelled(lo, a) && CharSpelled(hi, b)
    ensures RangeSpelled(Range(lo, hi), a + "-" + b)
  {
    hide CharSpelled;
  }

  lemma OneSpelled(c: char, s: string)
    requires CharSpelled(c, s)
    ensures RangeSpelled(Range(c, c), s)
  {
    hide CharSpelled;
  }

  lemma RangeRead(p: string, i: nat, sofar: seq<Range>) returns (r: Range, next: nat)
    requires ParseClass(p, i, sofar).Closed? && !(i < |p| && p[i] == ']' && sofar != [])
    ensures i < next < |p| && RangeSpelled(r, p[i..next])
    ensures ParseClass(p, i, sofar) == ParseClass(p, next, sofar + [r])
  {
    hide ParseClass, ClassChar, CharSpelled, RangeSpelled;
    ClassStep(p, i, sofar);
    var k := ClassChar(p, i).value;
    CharRead(p, i);
    if p[k + 1] != '-' {
      r, next := Range(p[k], p[k]), k + 1;
      OneSpelled(p[k], p[i..next]);
    } else {
      var h := ClassChar(p, k + 2).value;
      CharRead(p, k + 2);
      r, next := Range(p[k], p[h]), h + 1;
      PairSpelled(p[k], p[h], p[i..k + 1], p[k + 2..next]);
      assert p[i..next] == p[i..k + 1] + "-" + p[k + 2..next];
    }
  }

  lemma ClassClosed(p: string, i: nat, sofar: seq<Range>)
    requires i < |p| && p[i] == ']' && sofar != []
    ensures ParseClass(p, i, sofar) == Closed(sofar, i + 1)
  {
  }

  lemma NoRanges()
    ensures RangesSpelled([], "")
  {
  }

  /** What a class adds to what was read so far. */
  lemma {:induction false} RangesRead(p: string, i: nat, sofar: seq<Range>) returns (more: seq<Range>)
    requires ParseClass(p, i, sofar).Closed?
    ensures var end := ParseClass(p, i, sofar);
            && end.ranges == sofar + more && i <= end.next - 1 && RangesSpelled(more, p[i..end.next - 1])
            && end.ranges != [] && p[end.next - 1] == ']'
    decreases |p| - i
  {
    hide ParseClass, RangeSpelled, RangesSpelled;
    if i < |p| && p[i] == ']' && sofar != [] {
      more := [];
      ClassClosed(p, i, sofar);
      NoRanges();
      assert p[i..i] == "" && sofar + more == sofar;
    } else {
      var r, next := RangeRead(p, i, sofar);
      var rest := RangesRead(p, next, sofar + [r]);
      var end := ParseClass(p, i, sofar).next;
      more := [r] + rest;
      assert sofar + [r] + rest == sofar + more;
      RangesCons(r, rest, p[i..next], p[next..end - 1]);
      assert p[i..next] + p[next..end - 1] == p[i..end - 1];
    }
  }

  lemma ClassRead(p: string, i: nat)
    requires i < |p| && p[i] == '[' && ParseTerm(p, i).Next?
    ensures TermSpelled(ParseTerm(p, i).term, p[i..ParseTerm(p, i).end])
  {
    hide RangesSpelled, ParseClass;
    var negated := i + 1 < |p| && p[i + 1] == '^';
    var from := if negated then i + 2 else i + 1;
    var ranges := RangesRead(p, from, []);
    var end := ParseTerm(p, i).end;
    assert [] + ranges == ranges;
    var inner := p[from..end - 1];
    RangesStart(ranges, inner);
    assert p[i..end] == (if negated then "[^" else "[") + inner + "]";
    assert !negated ==> inner[0] == p[i + 1];
  }

  lemma TermRead(p: string, i: nat)
    requires i < |p| && ParseTerm(p, i).Next?
    ensures TermSpelled(ParseTerm(p, i).term, p[i..ParseTerm(p, i).end])
  {
    if p[i] == '[' {
      ClassRead(p, i);
    } else {
      hide ClassSpelled, ParseClass;
      assert p[i..i + 1] == [p[i]];
      if p[i] == '\\' { assert p[i..i + 2] == [p[i], p[i + 1]]; }
    }
  }

  lemma {:induction false} TermsRead(p: string, i: nat) returns (pieces: seq<string>)
    requires i <= |p| && Parse(p, i).Some?
    ensures Spelled(Parse(p, i).value, pieces, p[i..])
    decreases |p| - i
  {
    hide TermSpelled, ParseTerm;
    if i == |p| {
      pieces := [];
    } else {
      var n := ParseTerm(p, i);
      TermRead(p, i);
      var more := TermsRead(p, n.end);
      pieces := [p[i..n.end]] + more;
      assert pieces[1..] == more && p[i..] == p[i..n.end] + p[n.end..];
      var terms := Parse(p, i).value;
      forall k | 0 <= k < |terms| ensures TermSpelled(terms[k], pieces[k]) {
        if k > 0 { assert terms[k] == Parse(p, n.end).value[k - 1] && pieces[k] == more[k - 1]; }
      }
    }
  }

  /** A pattern is read as these terms exactly if it is made of spellings of them, one
      after the other; so it is malformed exactly if it is made of no such. */
  lemma GrammarExactly(p: string, terms: seq<Term>)
    ensures Parse(p, 0) == Some(terms) <==> exists pieces :: Spelled(terms, pieces, p)
  {
    assert p[0..] == p && p[0..|p|] == p;
    hide TermSpelled, Parse;
    if Parse(p, 0) == Some(terms) { var pieces := TermsRead(p, 0); }
    if exists pieces :: Spelled(terms, pieces, p) {
      var pieces :| Spelled(terms, pieces, p);
      ReadTerms(p, 0, terms, pieces);
    }
  }
}
