/** Folding of header fields at spaces, and unfolding as section 2.2.3 of
    RFC 5322 describes it. */
module HeaderFolding {
  import opened Sequences

  const CRLF := "\r\n"
  const FOLD_HEADER_MAX := 78
  const MAX_HEADER_LINE := 998
  /** What a run without spaces may have next to the longest field name. */
  const MAX_FOLDABLE_TOKEN := MAX_HEADER_LINE - |"Content-Transfer-Encoding: "|

  /** The runs between spaces, empty ones included. */
  function Tokens(s: string): (toks: seq<string>)
    ensures toks != []
  {
    if s == [] then [[]]
    else if s[0] == ' ' then [[]] + Tokens(s[1..])
    else
      var rest := Tokens(s[1..]);
      [[s[0]] + rest[0]] + rest[1..]
  }

  function Spaced(toks: seq<string>): string {
    if toks == [] then [] else " " + toks[0] + Spaced(toks[1..])
  }

  /** The lines written for a line so far and the tokens to come. */
  function Lines(cur: string, toks: seq<string>): (lines: seq<string>)
    ensures lines != []
    decreases |toks|
  {
    if toks == [] then [cur]
    else if |cur| + 1 + |toks[0]| > FOLD_HEADER_MAX then [cur] + Lines(" " + toks[0], toks[1..])
    else Lines(cur + " " + toks[0], toks[1..])
  }

  function Wire(lines: seq<string>): string { if lines == [] then [] else lines[0] + CRLF + Wire(lines[1..]) }

  function FoldedLines(key: string, value: string): seq<string> {
    var toks := Tokens(value);
    Lines(key + ":" + " " + toks[0], toks[1..])
  }

  function Fold(key: string, value: string): string { Wire(FoldedLines(key, value)) }

  method FoldHeaderLine(key: string, value: string) returns (out: string)
    ensures out == Fold(key, value)
  {
    out := [];
    var cur, first := key + ":", true;
    var toks := Tokens(value);
    ghost var all := FoldedLines(key, value);
    for i := 0 to |toks|
      invariant first == (i == 0)
      invariant first ==> cur == key + ":" && out == []
      invariant !first ==> out + Wire(Lines(cur, toks[i..])) == Wire(all)
    {
      var tok := toks[i];
      if first {
        cur := cur + " " + tok;
        first := false;
        assert [] + Wire(all) == Wire(all);
        continue;
      }
      ghost var rest := toks[i..];
      assert rest[0] == tok && rest[1..] == toks[i + 1..];
      if |cur| + 1 + |tok| > FOLD_HEADER_MAX {
        ghost var more := Lines(" " + tok, toks[i + 1..]);
        WireCons(cur, more);
        Assoc(out, cur + CRLF, Wire(more));
        Assoc(out, cur, CRLF);
        out := out + cur;
        out := out + CRLF;
        cur := " " + tok;
        continue;
      }
      cur := cur + " " + tok;
    }
    assert toks[|toks|..] == [];
    WireCons(cur, []);
    Assoc(out, cur, CRLF);
    out := out + cur;
    out := out + CRLF;
  }

  lemma WireCons(line: string, more: seq<string>)
    ensures Wire([line] + more) == line + CRLF + Wire(more) && Wire([line]) == line + CRLF
  {
    assert ([line] + more)[1..] == more;
    assert [line][1..] == [];
  }

  // Nothing is lost.

  function Concat(lines: seq<string>): string { if lines == [] then [] else lines[0] + Concat(lines[1..]) }

  lemma SpacedCons(first: string, more: seq<string>)
    ensures Spaced([first] + more) == " " + first + Spaced(more)
  {
    Glue([first], more);
  }

  lemma {:induction false} TokensCover(s: string)
    ensures Spaced(Tokens(s)) == " " + s
  {
    hide Spaced;
    if s == [] {
      SpacedCons([], []);
      assert [[]] + [] == [s] && Spaced([]) == [] by { SpacedNone(); }
    } else {
      var rest := Tokens(s[1..]);
      TokensCover(s[1..]);
      assert s == [s[0]] + s[1..];
      if s[0] == ' ' {
        SpacedCons([], rest);
        assert " " + [] == " ";
      } else {
        assert rest == [rest[0]] + rest[1..];
        SpacedCons(rest[0], rest[1..]);
        SpacedCons([s[0]] + rest[0], rest[1..]);
        LetterBefore(s[0], rest[0], Spaced(rest[1..]), s[1..]);
      }
    }
  }

  lemma SpacedNone()
    ensures Spaced([]) == []
  {
  }

  lemma LetterBefore(c: char, tok: string, more: string, s: string)
    requires " " + tok + more == " " + s
    ensures " " + ([c] + tok) + more == " " + ([c] + s)
  {
    Assoc(" ", tok, more);
    Cancel(" ", tok + more, s);
    Assoc([c], tok, more);
    Assoc(" ", [c] + tok, more);
  }

  /** The lines put together are the tokens with their spaces. */
  lemma {:induction false} LinesCover(cur: string, toks: seq<string>)
    ensures Concat(Lines(cur, toks)) == cur + Spaced(toks)
    decreases |toks|
  {
    if toks == [] {
      assert Concat([cur]) == cur + Concat([cur][1..]);
    } else if |cur| + 1 + |toks[0]| > FOLD_HEADER_MAX {
      var more := Lines(" " + toks[0], toks[1..]);
      LinesCover(" " + toks[0], toks[1..]);
      assert ([cur] + more)[1..] == more;
    } else {
      LinesCover(cur + " " + toks[0], toks[1..]);
      Assoc(cur, " " + toks[0], Spaced(toks[1..]));
      Assoc(cur, " ", toks[0]);
    }
  }

  lemma FoldedCover(key: string, value: string)
    ensures Concat(FoldedLines(key, value)) == key + ": " + value
  {
    hide Lines, Concat, Tokens;
    var toks := Tokens(value);
    TokensCover(value);
    LinesCover(key + ":" + " " + toks[0], toks[1..]);
    Assoc(key + ":", " " + toks[0], Spaced(toks[1..]));
    Assoc(key + ":", " ", toks[0]);
    assert key + ":" + (" " + value) == key + ": " + value;
  }

  // Unfolding.

  predicate Wsp(c: char) { c == ' ' || c == '\t' }

  predicate FoldAt(s: string) { |s| >= 3 && s[0] == '\r' && s[1] == '\n' && Wsp(s[2]) }

  /** Removes every CRLF that white space follows. */
  function Unfold(s: string): string {
    if s == [] then [] else if FoldAt(s) then Unfold(s[2..]) else [s[0]] + Unfold(s[1..])
  }

  /** There is nothing to unfold; text without line breaks is such. */
  predicate Unfolded(s: string) { forall i | 0 <= i < |s| :: !FoldAt(s[i..]) }

  lemma PlainIsUnfolded(s: string)
    requires '\r' !in s || '\n' !in s
    ensures Unfolded(s)
  {
    forall i | 0 <= i < |s| ensures !FoldAt(s[i..]) {
      assert s[i] in s && (i + 1 < |s| ==> s[i + 1] in s);
    }
  }

  predicate StartsWsp(lines: seq<string>) { forall i | 0 <= i < |lines| :: lines[i] != [] && Wsp(lines[i][0]) }

  /** A line without folds is read as it is, and the break after it goes if the
      next line starts with white space. */
  lemma {:induction false} UnfoldLine(line: string, rest: string)
    requires Unfolded(line) && (rest == [] || Wsp(rest[0]))
    ensures Unfold(line + CRLF + rest) == line + (if rest == [] then CRLF else Unfold(rest))
  {
    hide FoldAt, Unfolded;
    if line == [] {
      assert line + CRLF + rest == CRLF + rest;
      BreakGoes(rest);
    } else {
      NoFoldYet(line, rest);
      var all := line + CRLF + rest;
      assert all[0] == line[0] && all[1..] == line[1..] + CRLF + rest;
      UnfoldedTail(line);
      UnfoldLine(line[1..], rest);
      assert [line[0]] + line[1..] == line;
      Assoc([line[0]], line[1..], if rest == [] then CRLF else Unfold(rest));
    }
  }

  lemma NoFoldYet(line: string, rest: string)
    requires Unfolded(line) && line != []
    ensures !FoldAt(line + CRLF + rest)
  {
    assert line[0..] == line && !FoldAt(line[0..]);
  }

  lemma BreakGoes(rest: string)
    requires rest == [] || Wsp(rest[0])
    ensures Unfold(CRLF + rest) == if rest == [] then CRLF else Unfold(rest)
  {
    if rest == [] {
      assert CRLF + rest == CRLF && CRLF[1..] == "\n" && "\n"[1..] == [];
      assert Unfold("\n") == ['\n'] + Unfold([]);
    } else {
      assert (CRLF + rest)[2..] == rest;
    }
  }

  lemma UnfoldedTail(s: string)
    requires Unfolded(s) && s != []
    ensures Unfolded(s[1..])
  {
    forall i | 0 <= i < |s| - 1 ensures !FoldAt(s[1..][i..]) {
      assert s[1..][i..] == s[i + 1..];
    }
  }

  lemma UnfoldedParts(a: string, b: string)
    requires Unfolded(a + b)
    ensures Unfolded(a) && Unfolded(b)
  {
    forall i | 0 <= i < |a| ensures !FoldAt(a[i..]) {
      assert !FoldAt((a + b)[i..]);
      assert (a + b)[i..] == a[i..] + b;
    }
    forall i | 0 <= i < |b| ensures !FoldAt(b[i..]) {
      assert !FoldAt((a + b)[|a| + i..]);
      assert (a + b)[|a| + i..] == b[i..];
    }
  }

  lemma {:induction false} UnfoldWire(lines: seq<string>)
    requires lines != [] && Unfolded(Concat(lines)) && StartsWsp(lines[1..])
    ensures Unfold(Wire(lines)) == Concat(lines) + CRLF
  {
    hide Unfold, Unfolded;
    var line, more := lines[0], lines[1..];
    UnfoldedParts(line, Concat(more));
    if more == [] {
      assert line + CRLF + [] == line + CRLF && Concat(lines) == line + [];
      UnfoldLine(line, []);
    } else {
      assert StartsWsp(more[1..]) && Wsp(Wire(more)[0]);
      UnfoldWire(more);
      UnfoldLine(line, Wire(more));
      Assoc(line, Concat(more), CRLF);
    }
  }

  lemma {:induction false} LinesStartWsp(cur: string, toks: seq<string>)
    ensures StartsWsp(Lines(cur, toks)[1..])
    ensures |Lines(cur, toks)[0]| >= |cur|
    ensures forall i | 1 <= i < |Lines(cur, toks)| :: |Lines(cur, toks)[i]| >= 1
    decreases |toks|
  {
    if toks == [] {
    } else if |cur| + 1 + |toks[0]| > FOLD_HEADER_MAX {
      var more := Lines(" " + toks[0], toks[1..]);
      LinesStartWsp(" " + toks[0], toks[1..]);
      FirstStarts(" " + toks[0], toks[1..]);
      assert ([cur] + more)[1..] == more;
    } else {
      LinesStartWsp(cur + " " + toks[0], toks[1..]);
    }
  }

  lemma {:induction false} FirstStarts(cur: string, toks: seq<string>)
    requires cur != []
    ensures Lines(cur, toks)[0] != [] && Lines(cur, toks)[0][0] == cur[0]
    decreases |toks|
  {
    if toks != [] && |cur| + 1 + |toks[0]| <= FOLD_HEADER_MAX { FirstStarts(cur + " " + toks[0], toks[1..]); }
  }

  /** Unfolding the folded field gives back "key: value", and no line is empty. */
  lemma FoldRoundTrip(key: string, value: string)
    requires Unfolded(key + ": " + value)
    ensures Unfold(Fold(key, value)) == key + ": " + value + CRLF
    ensures forall l | l in FoldedLines(key, value) :: l != []
  {
    hide Unfold, Unfolded, Wire, Concat, Lines;
    var lines, toks := FoldedLines(key, value), Tokens(value);
    FoldedCover(key, value);
    LinesStartWsp(key + ":" + " " + toks[0], toks[1..]);
    UnfoldWire(lines);
    assert |lines[0]| >= |key + ":" + " " + toks[0]| >= 2;
  }

  // Lines of white space only.

  predicate Blank(s: string) { forall i | 0 <= i < |s| :: Wsp(s[i]) }

  /** Whether a line of white space only is written, told from the length of the
      line so far, whether it is such a line, and the tokens to come: where the
      next token does not fit, or at the end. */
  predicate WritesBlank(n: nat, blank: bool, toks: seq<string>)
    decreases |toks|
  {
    if toks == [] then blank
    else if n + 1 + |toks[0]| > FOLD_HEADER_MAX then blank || WritesBlank(1 + |toks[0]|, Blank(toks[0]), toks[1..])
    else WritesBlank(n + 1 + |toks[0]|, blank && Blank(toks[0]), toks[1..])
  }

  predicate HasBlank(lines: seq<string>) { exists l | l in lines :: Blank(l) }

  lemma BlankConcat(a: string, b: string)
    ensures Blank(a + b) <==> Blank(a) && Blank(b)
  {
    forall i | 0 <= i < |a| ensures (a + b)[i] == a[i] {}
    forall i | 0 <= i < |b| ensures (a + b)[|a| + i] == b[i] {}
  }

  lemma {:induction false} LinesBlank(cur: string, toks: seq<string>)
    ensures HasBlank(Lines(cur, toks)) <==> WritesBlank(|cur|, Blank(cur), toks)
    decreases |toks|
  {
    if toks == [] {
      assert cur in [cur];
    } else {
      var tok := toks[0];
      assert Blank(" ");
      BlankConcat(" ", tok);
      hide Blank;
      if |cur| + 1 + |tok| > FOLD_HEADER_MAX {
        LinesBlank(" " + tok, toks[1..]);
        BlankCons(cur, Lines(" " + tok, toks[1..]));
      } else {
        LinesBlank(cur + " " + tok, toks[1..]);
        BlankConcat(cur, " " + tok);
        Assoc(cur, " ", tok);
      }
    }
  }

  lemma BlankCons(line: string, more: seq<string>)
    ensures HasBlank([line] + more) <==> Blank(line) || HasBlank(more)
  {
    hide Blank;
    assert line in [line] + more;
  }

  /** Exactly when a folded field has a line of white space only, which section
      3.2.2 of RFC 5322 does not allow: if after a line that is full only white
      space is left that the next token, or none, does not fit after. */
  lemma BlankLineExactly(key: string, value: string)
    ensures HasBlank(FoldedLines(key, value)) <==>
            var toks := Tokens(value); WritesBlank(|key| + 2 + |toks[0]|, false, toks[1..])
  {
    var toks := Tokens(value);
    var cur := key + ":" + " " + toks[0];
    assert cur[|key|] == ':';
    assert !Blank(cur);
    hide Blank, Lines, WritesBlank;
    LinesBlank(cur, toks[1..]);
  }

  lemma {:induction false} NoBlankTokens(n: nat, toks: seq<string>)
    requires forall t | t in toks :: !Blank(t)
    ensures !WritesBlank(n, false, toks)
    decreases |toks|
  {
    if toks != [] {
      hide Blank;
      assert !Blank(toks[0]);
      NoBlankTokens(n + 1 + |toks[0]|, toks[1..]);
      NoBlankTokens(1 + |toks[0]|, toks[1..]);
    }
  }

  /** Every space is followed by a character that is not white space. */
  predicate SingleSpaces(s: string) {
    forall i | 0 <= i < |s| && s[i] == ' ' :: i + 1 < |s| && !Wsp(s[i + 1])
  }

  lemma SingleSpacesTail(s: string)
    requires SingleSpaces(s) && s != []
    ensures SingleSpaces(s[1..]) && (s[0] == ' ' ==> s[1..] != [] && !Wsp(s[1..][0]))
  {
    forall i | 0 <= i < |s| - 1 && s[1..][i] == ' ' ensures i + 1 < |s| - 1 && !Wsp(s[1..][i + 1]) {
      assert s[i + 1] == ' ';
    }
  }

  /** A token that a space precedes starts with what follows that space. */
  lemma {:induction false} SolidTokens(s: string)
    requires SingleSpaces(s)
    ensures forall t | t in Tokens(s)[1..] :: !Blank(t)
    ensures s != [] && !Wsp(s[0]) ==> !Blank(Tokens(s)[0])
  {
    if s != [] {
      SingleSpacesTail(s);
      SolidTokens(s[1..]);
      var rest := Tokens(s[1..]);
      assert rest == [rest[0]] + rest[1..];
      if s[0] == ' ' {
        assert ([[]] + rest)[1..] == rest;
      } else {
        assert ([[s[0]] + rest[0]] + rest[1..])[1..] == rest[1..];
        assert ([s[0]] + rest[0])[0] == s[0];
      }
    }
  }

  /** What a caller can make sure of: if every space of the value is followed by
      a character that is not white space, no line is blank, whatever the field
      name. */
  lemma SingleSpacesFold(key: string, value: string)
    requires SingleSpaces(value)
    ensures !HasBlank(FoldedLines(key, value))
  {
    hide Blank, HasBlank, WritesBlank, SingleSpaces, Tokens, FoldedLines;
    var toks := Tokens(value);
    SolidTokens(value);
    BlankLineExactly(key, value);
    NoBlankTokens(|key| + 2 + |toks[0]|, toks[1..]);
  }

  function Letters(n: nat): (s: string)
    ensures |s| == n && forall i | 0 <= i < n :: s[i] == 'a'
  {
    seq(n, i => 'a')
  }

  /** Inputs that have one: a full line, and then a space that nothing follows, or
      a tab. */
  lemma TrailingSpaceFolds()
    ensures HasBlank(FoldedLines("K", Letters(75) + " "))
    ensures HasBlank(FoldedLines("K", Letters(75) + " \t"))
  {
    assert Letters(75) + " " + "" == Letters(75) + " " && Letters(75) + " " + "\t" == Letters(75) + " \t";
    LastToken(Letters(75), "");
    LastToken(Letters(75), "\t");
    assert Blank("") && Blank("\t");
    hide Blank, Letters, HasBlank, FoldedLines;
    BlankLineExactly("K", Letters(75) + " ");
    BlankLineExactly("K", Letters(75) + " \t");
  }

  lemma {:induction false} OneToken(word: string)
    requires ' ' !in word
    ensures Tokens(word) == [word]
  {
    if word != [] {
      OneToken(word[1..]);
      assert [word[0]] + word[1..] == word;
    }
  }

  lemma {:induction false} LastToken(word: string, tail: string)
    requires ' ' !in word && ' ' !in tail
    ensures Tokens(word + " " + tail) == [word, tail]
  {
    var all := word + " " + tail;
    if word == [] {
      assert all[0] == ' ' && all[1..] == tail;
      OneToken(tail);
    } else {
      assert all[0] == word[0] && all[1..] == word[1..] + " " + tail;
      LastToken(word[1..], tail);
      assert [word[0]] + word[1..] == word;
    }
  }

  // Line length.

  /** The length of the longest run between spaces. */
  method LongestToken(s: string) returns (longest: nat)
    ensures forall t | t in Tokens(s) :: |t| <= longest
    ensures exists t | t in Tokens(s) :: |t| == longest
  {
    var toks := Tokens(s);
    longest := |toks[0]|;
    for i := 0 to |toks|
      invariant forall k | 0 <= k < i :: |toks[k]| <= longest
      invariant exists t | t in toks :: |t| == longest
    {
      if |toks[i]| > longest { longest := |toks[i]|; }
    }
  }

  /** A line within the limit, or one that could not be folded: a space and a
      single token. */
  predicate LineOK(line: string, toks: seq<string>) {
    |line| <= 78 || exists t | t in toks :: line == " " + t
  }

  lemma {:induction false} LinesFit(cur: string, toks: seq<string>, some: seq<string>)
    requires forall t | t in toks :: t in some
    ensures forall i | 1 <= i < |Lines(cur, toks)| :: LineOK(Lines(cur, toks)[i], some)
    ensures Lines(cur, toks)[0] == cur || |Lines(cur, toks)[0]| <= FOLD_HEADER_MAX
    decreases |toks|
  {
    if toks == [] {
    } else if |cur| + 1 + |toks[0]| > FOLD_HEADER_MAX {
      var more := Lines(" " + toks[0], toks[1..]);
      LinesFit(" " + toks[0], toks[1..], some);
      assert toks[0] in some;
      assert forall i | 1 <= i < |[cur] + more| :: ([cur] + more)[i] == more[i - 1];
    } else {
      LinesFit(cur + " " + toks[0], toks[1..], some);
    }
  }

  /** Every line is within 78 bytes or holds nothing but one token (and, if it
      is the first, the field name). */
  lemma LongLinesAreTokens(key: string, value: string)
    ensures var lines, toks := FoldedLines(key, value), Tokens(value);
            && (lines[0] == key + ": " + toks[0] || |lines[0]| <= 78)
            && forall i | 1 <= i < |lines| :: LineOK(lines[i], toks)
  {
    var toks := Tokens(value);
    LinesFit(key + ":" + " " + toks[0], toks[1..], toks);
    assert key + ":" + " " + toks[0] == key + ": " + toks[0];
  }

  /** A line is broken only where its first token would not have fit before. */
  lemma {:induction false} FoldsOnlyWhenNeeded(cur: string, toks: seq<string>)
    ensures forall i | 0 <= i < |Lines(cur, toks)| - 1 ::
              |Lines(cur, toks)[i]| + |Lines(cur, toks)[i + 1]| > 78
    decreases |toks|
  {
    if toks == [] {
    } else if |cur| + 1 + |toks[0]| > FOLD_HEADER_MAX {
      var more := Lines(" " + toks[0], toks[1..]);
      FoldsOnlyWhenNeeded(" " + toks[0], toks[1..]);
      LinesStartWsp(" " + toks[0], toks[1..]);
      assert Lines(cur, toks) == [cur] + more;
      forall i | 0 <= i < |more| ensures |([cur] + more)[i]| + |([cur] + more)[i + 1]| > FOLD_HEADER_MAX {
        if i > 0 { assert ([cur] + more)[i] == more[i - 1] && ([cur] + more)[i + 1] == more[i]; }
      }
    } else {
      FoldsOnlyWhenNeeded(cur + " " + toks[0], toks[1..]);
    }
  }

  /** With field names of at most 25 bytes, runs that are not encoded keep every
      line within the hard limit. */
  lemma LinesWithinHardLimit(key: string, value: string)
    requires |key| <= 25 && forall t | t in Tokens(value) :: |t| <= MAX_FOLDABLE_TOKEN
    ensures forall l | l in FoldedLines(key, value) :: |l| <= 998
  {
    hide FoldedLines, Tokens;
    LongLinesAreTokens(key, value);
    var lines, toks := FoldedLines(key, value), Tokens(value);
    forall l | l in lines ensures |l| <= MAX_HEADER_LINE {
      var i :| 0 <= i < |lines| && lines[i] == l;
      assert i == 0 || LineOK(l, toks);
      assert toks[0] in toks;
    }
  }
}
