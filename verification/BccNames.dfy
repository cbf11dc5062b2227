/** Which header lines name a Bcc field, said of their text: white space, one of
    the names in any case, white space, a colon. */
module BccNames {
  import opened Sequences
  import opened Text
  import opened BccStrip
  import Utf8

  // White space.

  function InUtf8(c: char): string { Utf8.Encode(c as int) }

  /** The white space that is trimmed is that of Unicode, in UTF-8. */
  lemma SpacesAreUnicode(s: string)
    ensures IsSpace(s) <==> exists c: char | Space(c) :: s == InUtf8(c)
  {
    if IsSpace(s) {
      var c := SpaceOf(s);
      assert Space(c) && s == InUtf8(c);
    }
    forall c: char | Space(c) ensures IsSpace(InUtf8(c)) {
      SpaceIsListed(c);
    }
  }

  const CODES: seq<char> := [
    '\U{0085}', '\U{00A0}', '\U{1680}', '\U{2000}', '\U{2001}', '\U{2002}', '\U{2003}', '\U{2004}', '\U{2005}',
    '\U{2006}', '\U{2007}', '\U{2008}', '\U{2009}', '\U{200A}', '\U{2028}', '\U{2029}', '\U{202F}', '\U{205F}',
    '\U{3000}']

  lemma Listed(i: nat)
    requires i < 19
    ensures |WIDE_SPACES| == |CODES| == 19 && Space(CODES[i]) && !Ascii(CODES[i])
    ensures WIDE_SPACES[i] == InUtf8(CODES[i])
  {
  }

  lemma SpaceOf(s: string) returns (c: char)
    requires IsSpace(s)
    ensures Space(c) && s == InUtf8(c)
  {
    if |s| == 1 && AsciiSpace(s[0]) {
      c := s[0];
    } else {
      var i :| 0 <= i < |WIDE_SPACES| && WIDE_SPACES[i] == s;
      Listed(i);
      c := CODES[i];
    }
  }

  lemma SpaceIsListed(c: char)
    requires Space(c)
    ensures IsSpace(InUtf8(c))
  {
    if !Ascii(c) {
      assert c in CODES;
      var i :| 0 <= i < |CODES| && CODES[i] == c;
      Listed(i);
    }
  }

  predicate AllSpaces(pieces: seq<string>) { forall i | 0 <= i < |pieces| :: IsSpace(pieces[i]) }

  /** Wide white space has two bytes or three, none of them ASCII; only the short
      ones have a C2. */
  lemma WideShape(i: nat)
    requires i < |WIDE_SPACES|
    ensures var p := WIDE_SPACES[i];
            && 2 <= |p| <= 3 && (forall k | 0 <= k < |p| :: !Ascii(p[k]))
            && (|p| == 2 <==> p[0] == '\U{C2}') && (|p| == 3 ==> p[1] != '\U{C2}')
  {
  }

  /** A piece of white space is an ASCII one or such a wide one. */
  lemma SpaceShape(p: string)
    requires IsSpace(p)
    ensures 1 <= |p| <= 3 && (|p| == 1 ==> AsciiSpace(p[0])) && (|p| > 1 ==> forall k | 0 <= k < |p| :: !Ascii(p[k]))
    ensures (|p| == 2 <==> p[0] == '\U{C2}') && (|p| == 3 ==> p[1] != '\U{C2}')
  {
    if !(|p| == 1 && AsciiSpace(p[0])) {
      var i :| 0 <= i < |WIDE_SPACES| && WIDE_SPACES[i] == p;
      WideShape(i);
    }
  }

  lemma LeadingSpace(p: string, rest: string)
    requires IsSpace(p)
    ensures SpaceBefore(p + rest) == |p| && (p + rest)[|p|..] == rest
  {
    hide IsSpace;
    SpaceShape(p);
    var s := p + rest;
    assert s[..|p|] == p;
    if |p| > 1 && IsSpace(s[..1]) { SpaceShape(s[..1]); }
    if |p| > 2 && IsSpace(s[..2]) { SpaceShape(s[..2]); }
  }

  lemma TrailingSpace(front: string, p: string)
    requires IsSpace(p)
    ensures SpaceAfter(front + p) == |p| && (front + p)[..|front|] == front
  {
    hide IsSpace;
    SpaceShape(p);
    var s := front + p;
    assert s[|s| - |p|..] == p;
    if |p| > 1 && IsSpace(s[|s| - 1..]) { SpaceShape(s[|s| - 1..]); }
    if |p| > 2 && IsSpace(s[|s| - 2..]) { SpaceShape(s[|s| - 2..]); }
  }

  /** Text that starts and ends in ASCII but not in a space is not trimmed. */
  predicate Bare(s: string) {
    s != "" && Ascii(s[0]) && !AsciiSpace(s[0]) && Ascii(s[|s| - 1]) && !AsciiSpace(s[|s| - 1])
  }

  lemma NoLeadingSpace(s: string, rest: string)
    requires Bare(s)
    ensures SpaceBefore(s + rest) == 0
  {
    hide IsSpace;
    var t := s + rest;
    if IsSpace(t[..1]) { SpaceShape(t[..1]); }
    if |t| >= 2 && IsSpace(t[..2]) { SpaceShape(t[..2]); }
    if |t| >= 3 && IsSpace(t[..3]) { SpaceShape(t[..3]); }
  }

  lemma NoTrailingSpace(s: string)
    requires Bare(s)
    ensures SpaceAfter(s) == 0
  {
    hide IsSpace;
    if IsSpace(s[|s| - 1..]) { SpaceShape(s[|s| - 1..]); }
    if |s| >= 2 && IsSpace(s[|s| - 2..]) { SpaceShape(s[|s| - 2..]); }
    if |s| >= 3 && IsSpace(s[|s| - 3..]) { SpaceShape(s[|s| - 3..]); }
  }

  lemma {:induction false} TrimsBefore(pieces: seq<string>, name: string, rest: string)
    requires AllSpaces(pieces) && Bare(name)
    ensures BccStrip.TrimLeft(Join(pieces) + (name + rest)) == name + rest
  {
    hide SpaceBefore, IsSpace, Bare;
    if pieces == [] {
      assert Join(pieces) + (name + rest) == name + rest;
      NoLeadingSpace(name, rest);
    } else {
      var more := Join(pieces[1..]) + (name + rest);
      Assoc(pieces[0], Join(pieces[1..]), name + rest);
      assert Join(pieces) + (name + rest) == pieces[0] + more;
      LeadingSpace(pieces[0], more);
      SpaceShape(pieces[0]);
      TrimsBefore(pieces[1..], name, rest);
    }
  }

  lemma {:induction false} JoinSnoc(pieces: seq<string>)
    requires pieces != []
    ensures Join(pieces) == Join(pieces[..|pieces| - 1]) + pieces[|pieces| - 1]
  {
    if |pieces| > 1 {
      JoinSnoc(pieces[1..]);
      assert pieces[1..][..|pieces| - 2] == pieces[..|pieces| - 1][1..];
      Assoc(pieces[0], Join(pieces[..|pieces| - 1][1..]), pieces[|pieces| - 1]);
    } else {
      assert pieces[1..] == [] && pieces[..0] == [];
    }
  }

  lemma {:induction false} TrimsAfter(name: string, pieces: seq<string>)
    requires AllSpaces(pieces) && Bare(name)
    ensures BccStrip.TrimRight(name + Join(pieces)) == name
  {
    hide SpaceAfter, IsSpace, Bare, Join;
    if pieces == [] {
      assert Join(pieces) == [] by { NoPieces(); }
      assert name + [] == name;
      NoTrailingSpace(name);
    } else {
      var front, last := pieces[..|pieces| - 1], pieces[|pieces| - 1];
      JoinSnoc(pieces);
      Assoc(name, Join(front), last);
      TrailingSpace(name + Join(front), last);
      SpaceShape(last);
      TrimsAfter(name, front);
    }
  }

  lemma NoPieces()
    ensures Join([]) == []
  {
  }

  /** And whatever is trimmed is such white space. */
  lemma {:induction false} TrimmedBefore(s: string) returns (pieces: seq<string>)
    ensures AllSpaces(pieces) && s == Join(pieces) + BccStrip.TrimLeft(s)
  {
    hide IsSpace;
    var n := SpaceBefore(s);
    if n == 0 {
      pieces := [];
    } else {
      var more := TrimmedBefore(s[n..]);
      pieces := [s[..n]] + more;
      assert pieces[1..] == more;
      assert s == s[..n] + s[n..];
      Assoc(s[..n], Join(more), BccStrip.TrimLeft(s[n..]));
    }
  }

  lemma LastIsSpace(s: string)
    requires SpaceAfter(s) > 0
    ensures IsSpace(s[|s| - SpaceAfter(s)..])
  {
    hide IsSpace;
  }

  lemma {:induction false} TrimmedAfter(s: string) returns (pieces: seq<string>)
    ensures AllSpaces(pieces) && s == BccStrip.TrimRight(s) + Join(pieces)
  {
    hide IsSpace, SpaceAfter, Join;
    var n := SpaceAfter(s);
    if n == 0 {
      pieces := [];
      NoPieces();
    } else {
      var front, last := s[..|s| - n], s[|s| - n..];
      LastIsSpace(s);
      var more := TrimmedAfter(front);
      pieces := more + [last];
      assert pieces[..|more|] == more;
      JoinSnoc(pieces);
      assert s == front + last;
      Assoc(BccStrip.TrimRight(front), Join(more), last);
    }
  }

  // Names.

  function LowerAll(s: string): (l: string)
    ensures |l| == |s| && forall i | 0 <= i < |s| :: l[i] == AsciiLower(s[i])
  {
    seq(|s|, i requires 0 <= i < |s| => AsciiLower(s[i]))
  }

  const LONG_S_BYTES := "\U{C5}\U{BF}"

  /** The field names that are stripped, up to ASCII case; Unicode folds the long
      s to an s. */
  predicate Spells(name: string) {
    LowerAll(name) == "bcc" || LowerAll(name) == "resent-bcc" || LowerAll(name) == "re" + LONG_S_BYTES + "ent-bcc"
  }

  /** Without an s, folding is ASCII case. */
  lemma {:induction false} FoldsPlain(s: string, a: string, b: string)
    requires 's' !in a
    ensures FoldsTo(s, a + b) <==> |s| >= |a| && LowerAll(s[..|a|]) == a && FoldsTo(s[|a|..], b)
  {
    hide FoldsTo;
    if a == "" {
      assert a + b == b && s[0..] == s && LowerAll(s[..0]) == "";
    } else {
      assert (a + b)[0] == a[0] && (a + b)[1..] == a[1..] + b;
      FoldsStep(s, a + b);
      if s != "" {
        FoldsPlain(s[1..], a[1..], b);
        if |s| >= |a| { LowerCons(s, a); }
      }
    }
  }

  lemma LowerCons(s: string, a: string)
    requires 0 < |a| <= |s|
    ensures LowerAll(s[..|a|]) == a <==> AsciiLower(s[0]) == a[0] && LowerAll(s[1..][..|a| - 1]) == a[1..]
    ensures s[1..][|a| - 1..] == s[|a|..]
  {
    var l, m := LowerAll(s[..|a|]), LowerAll(s[1..][..|a| - 1]);
    assert l == [AsciiLower(s[0])] + m;
    assert a == [a[0]] + a[1..];
  }

  lemma FoldsStep(s: string, name: string)
    requires name != "" && name[0] != 's'
    ensures FoldsTo(s, name) <==> s != "" && AsciiLower(s[0]) == name[0] && FoldsTo(s[1..], name[1..])
  {
  }

  lemma FoldsEnd(s: string, name: string)
    requires 's' !in name
    ensures FoldsTo(s, name) <==> LowerAll(s) == name
  {
    assert name + "" == name;
    FoldsPlain(s, name, "");
    if |s| >= |name| { assert FoldsTo(s[|name|..], "") <==> |s| == |name|; }
    if |s| == |name| { assert s[..|name|] == s; }
  }

  lemma LongSLower(s: string, more: string)
    ensures LowerAll(s) == LONG_S_BYTES + more ==> LONG_S_BYTES <= s
  {
    if |s| >= 2 { assert LowerAll(s)[0] == AsciiLower(s[0]) && LowerAll(s)[1] == AsciiLower(s[1]); }
  }

  /** An s is an s in either case, or the long one. */
  lemma FoldsS(s: string, more: string)
    requires 's' !in more
    ensures FoldsTo(s, "s" + more) <==> LowerAll(s) == "s" + more || LowerAll(s) == LONG_S_BYTES + more
  {
    var name := "s" + more;
    assert name[0] == 's' && name[1..] == more;
    if LONG_S_BYTES <= s {
      FoldsEnd(s[2..], more);
      assert LowerAll(s) == LONG_S_BYTES + LowerAll(s[2..]);
      Cancel(LONG_S_BYTES, LowerAll(s[2..]), more);
      assert LowerAll(s)[0] == '\U{C5}';
    } else {
      LongSLower(s, more);
      if s != "" {
        FoldsEnd(s[1..], more);
        assert LowerAll(s) == [AsciiLower(s[0])] + LowerAll(s[1..]);
        assert LowerAll(s) == name <==> AsciiLower(s[0]) == 's' && LowerAll(s[1..]) == more;
      }
    }
  }

  lemma FoldsToNames(name: string)
    ensures FoldsTo(name, "bcc") || FoldsTo(name, "resent-bcc") <==> Spells(name)
  {
    hide FoldsTo;
    FoldsEnd(name, "bcc");
    assert "re" + ("s" + "ent-bcc") == "resent-bcc";
    FoldsPlain(name, "re", "s" + "ent-bcc");
    if |name| >= 2 {
      FoldsS(name[2..], "ent-bcc");
      LowerSplit(name, 2);
      Cancel("re", LowerAll(name[2..]), "s" + "ent-bcc");
      Cancel("re", LowerAll(name[2..]), LONG_S_BYTES + "ent-bcc");
      Assoc("re", LONG_S_BYTES, "ent-bcc");
      Starts(LowerAll(name), "re", "sent-bcc");
      Starts(LowerAll(name), "re", LONG_S_BYTES + "ent-bcc");
    }
  }

  lemma LowerSplit(s: string, n: nat)
    requires n <= |s|
    ensures LowerAll(s) == LowerAll(s[..n]) + LowerAll(s[n..])
  {
  }

  lemma Starts(s: string, a: string, b: string)
    requires |s| >= |a|
    ensures s == a + b <==> s[..|a|] == a && s[|a|..] == b
  {
    assert s == s[..|a|] + s[|a|..];
    Glue(a, b);
  }

  // Lines.

  /** The text of a line that names a Bcc field. */
  predicate NamedAs(line: string, before: seq<string>, name: string, after: seq<string>, rest: string) {
    && AllSpaces(before) && Spells(name) && AllSpaces(after)
    && line == Join(before) + name + Join(after) + ":" + rest
  }

  ghost predicate NamesBcc(line: string) {
    exists before, name, after, rest :: NamedAs(line, before, name, after, rest)
  }

  lemma NoColonIn(p: string)
    requires IsSpace(p)
    ensures ':' !in p
  {
    hide IsSpace;
    SpaceShape(p);
    assert |p| == 1 ==> p == [p[0]];
  }

  lemma {:induction false} NoColon(pieces: seq<string>)
    requires AllSpaces(pieces)
    ensures ':' !in Join(pieces)
  {
    hide IsSpace;
    if pieces != [] {
      SpaceShape(pieces[0]);
      NoColonIn(pieces[0]);
      NoColon(pieces[1..]);
    }
  }

  lemma SpellsBare(name: string)
    requires Spells(name)
    ensures Bare(name) && ':' !in name
  {
    var l := LowerAll(name);
    assert l[0] == AsciiLower(name[0]) && l[|l| - 1] == AsciiLower(name[|name| - 1]);
    assert forall i | 0 <= i < |name| :: l[i] == AsciiLower(name[i]) && l[i] != ':';
  }

  lemma NamedIsBcc(line: string, before: seq<string>, name: string, after: seq<string>, rest: string)
    requires NamedAs(line, before, name, after, rest)
    ensures IsBccField(line)
  {
    hide Spells, Bare, AllSpaces, Join, BccStrip.TrimLeft, BccStrip.TrimRight, FoldsTo, First;
    SpellsBare(name);
    NoColon(before);
    NoColon(after);
    var s := Join(before) + name + Join(after);
    assert line == s + (":" + rest);
    FirstIs(line, ':', |s|);
    assert line[..|s|] == s;
    Assoc(Join(before), name, Join(after));
    TrimsBefore(before, name, Join(after));
    TrimsAfter(name, after);
    FoldsToNames(name);
  }

  lemma BccIsNamed(line: string)
    requires IsBccField(line)
    ensures NamesBcc(line)
  {
    hide Spells, AllSpaces, Join, BccStrip.TrimLeft, BccStrip.TrimRight, FoldsTo, First;
    var colon := First(line, ':');
    var s := line[..colon];
    var name := BccStrip.TrimSpace(s);
    FoldsToNames(name);
    var before := TrimmedBefore(s);
    var after := TrimmedAfter(BccStrip.TrimLeft(s));
    Assoc(Join(before), name, Join(after));
    var rest := line[colon + 1..];
    assert line == s + ":" + rest;
    assert NamedAs(line, before, name, after, rest);
  }

  /** A line is taken for a Bcc field exactly if it consists of white space, one of
      the names, white space, a colon and anything. */
  lemma BccExactly(line: string)
    ensures IsBccField(line) <==> NamesBcc(line)
  {
    hide IsBccField, NamedAs;
    if IsBccField(line) { BccIsNamed(line); }
    if NamesBcc(line) {
      var before, name, after, rest :| NamedAs(line, before, name, after, rest);
      NamedIsBcc(line, before, name, after, rest);
    }
  }

  /** So for a name in ASCII without white space or colon it is the name in lower
      case that decides; and a line without a colon is no Bcc field. */
  lemma PlainNamesDecide(name: string, rest: string)
    requires forall i | 0 <= i < |name| :: Ascii(name[i]) && !AsciiSpace(name[i]) && name[i] != ':'
    ensures IsBccField(name + ":" + rest) <==> LowerAll(name) == "bcc" || LowerAll(name) == "resent-bcc"
    ensures !IsBccField(name)
  {
    hide FoldsTo, BccStrip.TrimLeft, BccStrip.TrimRight, First;
    var line := name + ":" + rest;
    FirstIs(line, ':', |name|);
    FirstIs(name, ':', |name|);
    assert line[..|name|] == name;
    Untrimmed(name);
    FoldsToNames(name);
    AsciiSpells(name);
  }

  lemma AsciiSpells(name: string)
    requires forall i | 0 <= i < |name| :: Ascii(name[i])
    ensures Spells(name) <==> LowerAll(name) == "bcc" || LowerAll(name) == "resent-bcc"
  {
    var long := "re" + LONG_S_BYTES + "ent-bcc";
    if |name| > 2 { assert LowerAll(name)[2] == AsciiLower(name[2]) && long[2] == '\U{C5}'; }
  }

  lemma Untrimmed(name: string)
    requires forall i | 0 <= i < |name| :: Ascii(name[i]) && !AsciiSpace(name[i])
    ensures BccStrip.TrimSpace(name) == name
  {
    if name != "" {
      TrimsBefore([], name, "");
      TrimsAfter(name, []);
      assert Join([]) + (name + "") == name && name + Join([]) == name;
    }
  }
}
