/** What stripping leaves: the other fields, whole and in order, and the body. */
module BccTheorems {
  import opened Sequences
  import opened Text
  import opened BccStrip
  import opened BccNames

  ghost predicate Header(lines: seq<string>) { forall i | 0 <= i < |lines| :: HeaderLine(lines[i]) }

  predicate StartsBlank(s: string) { First(s, '\n') < |s| && Blank(s[..LineLen(s)]) }

  /** The first line of a prefix that reaches beyond it. */
  lemma LineOfPrefix(s: string, e: nat)
    requires First(s, '\n') < |s| && LineLen(s) <= e <= |s|
    ensures LineLen(s[..e]) == LineLen(s)
  {
    hide First;
    FirstIs(s[..e], '\n', First(s, '\n'));
  }

  lemma LinesOfPrefix(s: string, e: nat)
    requires First(s, '\n') < |s| && LineLen(s) <= e <= |s|
    ensures Lines(s[..e]) == [s[..LineLen(s)]] + Lines(s[LineLen(s)..][..e - LineLen(s)])
  {
    hide First, LineLen, Lines;
    LineOfPrefix(s, e);
    Slices(s, LineLen(s), e);
    assert s[..e] != [] by { LineIsSome(s); }
    LinesStep(s[..e]);
  }

  lemma LineIsSome(s: string)
    ensures s != [] ==> LineLen(s) > 0
  {
  }

  lemma LinesStep(h: string)
    requires h != []
    ensures Lines(h) == [h[..LineLen(h)]] + Lines(h[LineLen(h)..])
  {
  }

  lemma FirstLine(s: string)
    requires First(s, '\n') < |s| && !Blank(s[..LineLen(s)])
    ensures HeaderLine(s[..LineLen(s)])
  {
    hide First;
    FirstIs(s[..LineLen(s)], '\n', LineLen(s) - 1);
  }

  /** A header section is complete, non-blank lines and ends before a blank one. */
  lemma {:induction false} HeaderIsLines(s: string)
    requires HeaderEnd(s) >= 0
    ensures var e := HeaderEnd(s); Header(Lines(s[..e])) && Join(Lines(s[..e])) == s[..e] && StartsBlank(s[e..])
    decreases |s|
  {
    hide First, LineLen, HeaderLine, Lines, Blank, HeaderEnd, StartsBlank, Join, Header;
    var e, n := HeaderEnd(s), LineLen(s);
    if e == 0 {
      assert s[0..] == s && s[..0] == [];
      NoneAtAll(s);
    } else {
      HeaderAfterLine(s);
      HeaderIsLines(s[n..]);
      LinesOfPrefix(s, e);
      FirstLine(s);
      Slices(s, n, e);
      LinePrepended(s[..n], Lines(s[n..][..e - n]));
    }
  }

  lemma HeaderAfterLine(s: string)
    requires HeaderEnd(s) > 0
    ensures First(s, '\n') < |s| && !Blank(s[..LineLen(s)]) && 0 < LineLen(s) <= HeaderEnd(s)
    ensures HeaderEnd(s[LineLen(s)..]) == HeaderEnd(s) - LineLen(s)
  {
    hide Blank;
  }

  lemma LinePrepended(line: string, more: seq<string>)
    requires HeaderLine(line) && Header(more)
    ensures Header([line] + more) && Join([line] + more) == line + Join(more)
  {
    hide HeaderLine;
    Glue([line], more);
  }

  lemma NoneAtAll(s: string)
    ensures Lines([]) == [] && Header([]) && Join([]) == [] && (HeaderEnd(s) == 0 ==> StartsBlank(s))
  {
  }

  /** Such lines are found again, with what follows them. */
  lemma {:induction false} LinesAreHeader(lines: seq<string>, rest: string)
    requires Header(lines) && StartsBlank(rest)
    ensures HeaderEnd(Join(lines) + rest) == |Join(lines)| && Lines(Join(lines)) == lines
  {
    hide HeaderEnd, Lines, HeaderLine, StartsBlank;
    if lines == [] {
      assert Join(lines) + rest == rest;
      NoLines(rest);
    } else {
      var line, more := lines[0], Join(lines[1..]);
      LinesAreHeader(lines[1..], rest);
      LineFirst(line, more);
      LineFirst(line, more + rest);
      assert Join(lines) + rest == line + (more + rest);
      assert lines == [line] + lines[1..];
    }
  }

  lemma NoLines(rest: string)
    requires StartsBlank(rest)
    ensures HeaderEnd(rest) == 0 && Lines([]) == []
  {
  }

  lemma LineFirst(line: string, more: string)
    requires HeaderLine(line)
    ensures Lines(line + more) == [line] + Lines(more)
    ensures HeaderEnd(line + more) == if HeaderEnd(more) < 0 then -1 else |line| + HeaderEnd(more)
  {
    JoinStarts(line, more);
    hide First;
  }

  lemma JoinStarts(line: string, more: string)
    requires HeaderLine(line)
    ensures LineLen(line + more) == |line| && First(line + more, '\n') < |line + more|
    ensures (line + more)[..|line|] == line && (line + more)[|line|..] == more
  {
    FirstIs(line + more, '\n', |line| - 1);
  }

  lemma {:induction false} KeptIsHeader(lines: seq<string>, skipping: bool)
    requires Header(lines)
    ensures Header(Kept(lines, skipping))
  {
    hide HeaderLine, IsBccField;
    if lines != [] {
      KeptIsHeader(lines[1..], false);
      KeptIsHeader(lines[1..], true);
    }
  }

  /** Nothing more goes the second time. */
  lemma {:induction false} KeptTwice(lines: seq<string>, skipping: bool)
    ensures Kept(Kept(lines, skipping), false) == Kept(lines, skipping)
  {
    hide IsBccField;
    if lines != [] {
      var skip := if Continues(lines[0]) then skipping else IsBccField(lines[0]);
      var more := Kept(lines[1..], skip);
      KeptTwice(lines[1..], skip);
      assert [] + more == more && ([lines[0]] + more)[1..] == more;
    }
  }

  lemma {:induction false} KeptHasNoBcc(lines: seq<string>, skipping: bool)
    ensures forall l | l in Kept(lines, skipping) :: Continues(l) || !IsBccField(l)
  {
    hide IsBccField;
    if lines != [] {
      KeptHasNoBcc(lines[1..], false);
      KeptHasNoBcc(lines[1..], true);
    }
  }

  /** The stripped message has its header end after the kept lines, with the
      same bytes from there on. */
  lemma StripKeepsHeaderEnd(s: string)
    requires HeaderEnd(s) >= 0
    ensures var kept, t := Kept(Lines(s[..HeaderEnd(s)]), false), Strip(s);
            && HeaderEnd(t) == |Join(kept)| && Lines(t[..HeaderEnd(t)]) == kept
            && t[HeaderEnd(t)..] == s[HeaderEnd(s)..]
  {
    hide HeaderEnd, Lines, Kept;
    var e := HeaderEnd(s);
    HeaderIsLines(s);
    var kept := Kept(Lines(s[..e]), false);
    KeptIsHeader(Lines(s[..e]), false);
    LinesAreHeader(kept, s[e..]);
    assert (Join(kept) + s[e..])[..|Join(kept)|] == Join(kept);
  }

  /** Stripping again changes nothing, and no field left has such a name. */
  lemma StripTwice(s: string)
    ensures Strip(Strip(s)) == Strip(s)
    ensures HeaderEnd(Strip(s)) >= 0 <==> HeaderEnd(s) >= 0
    ensures HeaderEnd(Strip(s)) >= 0 ==>
              forall l | l in Lines(Strip(s)[..HeaderEnd(Strip(s))]) :: Goes(l) || !NamesBcc(l)
  {
    hide HeaderEnd, Lines, Kept, IsBccField, NamesBcc;
    if HeaderEnd(s) >= 0 {
      StripKeepsHeaderEnd(s);
      var lines := Lines(s[..HeaderEnd(s)]);
      KeptTwice(lines, false);
      KeptHasNoBcc(lines, false);
      forall l | l in Kept(lines, false) ensures Goes(l) || !NamesBcc(l) {
        BccExactly(l);
      }
    }
  }

  // Where the header ends.

  /** At `i` a line starts that is blank: a line feed, or a carriage return and one. */
  predicate BlankLineAt(s: string, i: nat) {
    && i < |s| && (i == 0 || s[i - 1] == '\n')
    && (s[i] == '\n' || (s[i] == '\r' && i + 1 < |s| && s[i + 1] == '\n'))
  }

  lemma BlankAfterLine(s: string, n: nat, i: nat)
    requires 0 < n <= i <= |s| && s[n - 1] == '\n'
    ensures BlankLineAt(s, i) <==> BlankLineAt(s[n..], i - n)
  {
  }

  /** A line that is not blank has no blank line in it. */
  lemma NoneInLine(s: string, i: nat)
    requires First(s, '\n') < |s| && i <= First(s, '\n') && (i == 0 ==> !BlankAt(s, First(s, '\n')))
    ensures !BlankLineAt(s, i)
  {
    hide First;
  }

  /** The header ends before the first blank line, and nowhere exactly if there is
      none. */
  lemma {:induction false} HeaderEndExactly(s: string)
    ensures var e := HeaderEnd(s);
            && (e >= 0 ==> BlankLineAt(s, e))
            && forall i: nat | i < (if e < 0 then |s| else e) :: !BlankLineAt(s, i)
    decreases |s|
  {
    hide HeaderEnd, First, BlankLineAt;
    HeaderStep(s);
    var j := First(s, '\n');
    if j == |s| {
      forall i: nat | i < |s| ensures !BlankLineAt(s, i) {
        NoBreak(s, i);
      }
    } else if BlankAt(s, j) {
      BlankHere(s);
    } else {
      var n, e := j + 1, HeaderEnd(s);
      HeaderEndExactly(s[n..]);
      if e >= 0 { BlankAfterLine(s, n, e); }
      forall i: nat | i < (if e < 0 then |s| else e) ensures !BlankLineAt(s, i) {
        if i < n { NoneInLine(s, i); } else { BlankAfterLine(s, n, i); }
      }
    }
  }

  lemma NoBreak(s: string, i: nat)
    requires First(s, '\n') == |s|
    ensures !BlankLineAt(s, i)
  {
    hide First;
  }

  lemma BlankHere(s: string)
    requires First(s, '\n') < |s| && BlankAt(s, First(s, '\n'))
    ensures BlankLineAt(s, 0)
  {
    hide First;
  }

  // Fields.

  /** A line that goes on with the field before it: it starts with white space. */
  predicate Goes(line: string) { line != "" && line[0] in {' ', '\t'} }

  /** The number of lines of the first field: one, and its continuations. */
  function FieldLen(lines: seq<string>): (n: nat)
    requires lines != []
    ensures 0 < n <= |lines| && (forall i | 0 < i < n :: Goes(lines[i])) && (n < |lines| ==> !Goes(lines[n]))
  {
    if |lines| > 1 && Goes(lines[1]) then
      assert forall i | 0 < i < |lines| :: lines[1..][i - 1] == lines[i];
      1 + FieldLen(lines[1..])
    else 1
  }

  function Fields(lines: seq<string>): seq<seq<string>> {
    if lines == [] then [] else [lines[..FieldLen(lines)]] + Fields(lines[FieldLen(lines)..])
  }

  /** A field with the name Bcc or Resent-Bcc, in any case, white space around it. */
  ghost predicate BccField(field: seq<string>) { field != [] && !Goes(field[0]) && NamesBcc(field[0]) }

  ghost function Others(fields: seq<seq<string>>): seq<seq<string>> {
    if fields == [] then [] else (if BccField(fields[0]) then [] else [fields[0]]) + Others(fields[1..])
  }

  function Flatten(fields: seq<seq<string>>): seq<string> {
    if fields == [] then [] else fields[0] + Flatten(fields[1..])
  }

  lemma {:induction false} FieldsCover(lines: seq<string>)
    ensures Flatten(Fields(lines)) == lines
  {
    if lines != [] {
      var n := FieldLen(lines);
      FieldsCover(lines[n..]);
      hide FieldLen;
      Glue([lines[..n]], Fields(lines[n..]));
      Slices(lines, n, n);
    }
  }

  /** Continuation lines go or stay together. */
  lemma {:induction false} KeptRun(lines: seq<string>, k: nat, n: nat, skipping: bool)
    requires k <= n <= |lines| && forall i | k <= i < n :: Continues(lines[i])
    ensures Kept(lines[k..], skipping) == (if skipping then [] else lines[k..n]) + Kept(lines[n..], skipping)
    decreases n - k
  {
    hide IsBccField;
    if k < n {
      KeptRun(lines, k + 1, n, skipping);
      assert lines[k..][0] == lines[k] && lines[k..][1..] == lines[k + 1..];
      var rest := Kept(lines[n..], skipping);
      assert Kept(lines[k..], skipping) == (if skipping then [] else [lines[k]]) + Kept(lines[k + 1..], skipping);
      hide Kept, Continues;
      Assoc([lines[k]], lines[k + 1..n], rest);
      assert lines[k..n] == [lines[k]] + lines[k + 1..n];
    }
  }

  /** Between fields it does not matter what came before. */
  lemma KeptFresh(lines: seq<string>)
    requires lines != [] ==> !Continues(lines[0])
    ensures Kept(lines, true) == Kept(lines, false)
  {
  }

  /** What stays are exactly the fields that are not Bcc, whole and in order. */
  lemma {:induction false} KeptIsOthers(lines: seq<string>)
    ensures Kept(lines, false) == Flatten(Others(Fields(lines)))
    decreases |lines|
  {
    if lines != [] {
      var n := FieldLen(lines);
      var field, more := lines[..n], lines[n..];
      KeptIsOthers(more);
      FieldStep(lines);
      var rest := Others(Fields(more));
      assert [] + rest == rest && ([field] + rest)[1..] == rest;
    }
  }

  lemma FieldStep(lines: seq<string>)
    requires lines != []
    ensures var n := FieldLen(lines);
            && Fields(lines) == [lines[..n]] + Fields(lines[n..])
            && Others(Fields(lines)) == (if BccField(lines[..n]) then [] else [lines[..n]]) + Others(Fields(lines[n..]))
            && Kept(lines, false) == (if BccField(lines[..n]) then [] else lines[..n]) + Kept(lines[n..], false)
  {
    hide IsBccField, NamesBcc, Kept;
    var n := FieldLen(lines);
    Glue([lines[..n]], Fields(lines[n..]));
    KeptField(lines, n);
  }

  lemma KeptField(lines: seq<string>, n: nat)
    requires 0 < n <= |lines| && (forall i | 0 < i < n :: Continues(lines[i])) && (n < |lines| ==> !Continues(lines[n]))
    ensures Kept(lines, false) == (if BccField(lines[..n]) then [] else lines[..n]) + Kept(lines[n..], false)
  {
    hide IsBccField, NamesBcc, Continues, Kept, BccField;
    var skip, rest := BccField(lines[..n]), Kept(lines[n..], false);
    KeptFirst(lines, n);
    KeptRun(lines, 1, n, skip);
    KeptFresh(lines[n..]);
    Assoc([lines[0]], lines[1..n], rest);
    HeadOf(lines, n);
  }

  lemma KeptFirst(lines: seq<string>, n: nat)
    requires 0 < n <= |lines|
    ensures var skip := BccField(lines[..n]);
            Kept(lines, false) == (if skip then [] else [lines[0]]) + Kept(lines[1..], skip)
  {
    hide IsBccField, NamesBcc;
    BccExactly(lines[0]);
    assert lines[..n][0] == lines[0];
  }

  /** Stripping leaves the header fields that are not Bcc or Resent-Bcc, with
      their folded lines and in order, and then the bytes from the first blank
      line on. */
  lemma StripDropsBccFields(s: string)
    requires HeaderEnd(s) >= 0
    ensures var e := HeaderEnd(s); var fields := Fields(Lines(s[..e]));
            && Join(Flatten(fields)) == s[..e]
            && Strip(s) == Join(Flatten(Others(fields))) + s[e..]
  {
    hide HeaderEnd, Lines, Kept, Fields;
    var lines := Lines(s[..HeaderEnd(s)]);
    HeaderIsLines(s);
    FieldsCover(lines);
    KeptIsOthers(lines);
  }
}
