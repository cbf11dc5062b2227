/** Removing Bcc fields from a message header in place. Bytes are the characters
    below 256; the text is what the fields and lines of a header are. */
module BccStrip {
  import opened Text

  // Field names.

  /** Length of the white space a string starts or ends with, 0 for none; the
      longer ones are UTF-8 encodings. */
  const WIDE_SPACES: seq<string> := [
    "\U{C2}\U{85}", "\U{C2}\U{A0}", "\U{E1}\U{9A}\U{80}",
    "\U{E2}\U{80}\U{80}", "\U{E2}\U{80}\U{81}", "\U{E2}\U{80}\U{82}", "\U{E2}\U{80}\U{83}", "\U{E2}\U{80}\U{84}",
    "\U{E2}\U{80}\U{85}", "\U{E2}\U{80}\U{86}", "\U{E2}\U{80}\U{87}", "\U{E2}\U{80}\U{88}", "\U{E2}\U{80}\U{89}",
    "\U{E2}\U{80}\U{8A}", "\U{E2}\U{80}\U{A8}", "\U{E2}\U{80}\U{A9}", "\U{E2}\U{80}\U{AF}", "\U{E2}\U{81}\U{9F}",
    "\U{E3}\U{80}\U{80}"]

  predicate AsciiSpace(c: char) { '\t' <= c <= '\r' || c == ' ' }

  predicate IsSpace(s: string) { (|s| == 1 && AsciiSpace(s[0])) || s in WIDE_SPACES }

  function SpaceBefore(s: string): (n: nat)
    ensures n <= |s|
  {
    if |s| >= 1 && IsSpace(s[..1]) then 1
    else if |s| >= 2 && IsSpace(s[..2]) then 2
    else if |s| >= 3 && IsSpace(s[..3]) then 3 else 0
  }

  function SpaceAfter(s: string): (n: nat)
    ensures n <= |s|
  {
    if |s| >= 1 && IsSpace(s[|s| - 1..]) then 1
    else if |s| >= 2 && IsSpace(s[|s| - 2..]) then 2
    else if |s| >= 3 && IsSpace(s[|s| - 3..]) then 3 else 0
  }

  function TrimLeft(s: string): string {
    if SpaceBefore(s) > 0 then TrimLeft(s[SpaceBefore(s)..]) else s
  }

  function TrimSpace(s: string): string { TrimRight(TrimLeft(s)) }

  function TrimRight(s: string): string {
    if SpaceAfter(s) > 0 then TrimRight(s[..|s| - SpaceAfter(s)]) else s
  }

  /** Equal to a lower-case ASCII name when folded; the long s is an s. */
  predicate FoldsTo(s: string, name: string) {
    if name == "" then s == ""
    else if name[0] == 's' && "\U{C5}\U{BF}" <= s then FoldsTo(s[2..], name[1..])
    else s != "" && AsciiLower(s[0]) == name[0] && FoldsTo(s[1..], name[1..])
  }

  predicate IsBccField(line: string) {
    var colon := First(line, ':');
    && colon < |line|
    && var name := TrimSpace(line[..colon]); FoldsTo(name, "bcc") || FoldsTo(name, "resent-bcc")
  }

  // Lines.

  /** The length of the first line with its line feed, if it has one. */
  function LineLen(s: string): (n: nat)
    ensures n <= |s| && (s != [] ==> n > 0)
  {
    if First(s, '\n') < |s| then First(s, '\n') + 1 else |s|
  }

  predicate Blank(line: string) { line == "\n" || line == "\r\n" }

  /** A complete line that is not blank. */
  predicate HeaderLine(line: string) {
    |line| > 0 && line[|line| - 1] == '\n' && First(line, '\n') == |line| - 1 && !Blank(line)
  }

  /** Where the first blank line starts, or -1. */
  function HeaderEnd(s: string): (end: int)
    ensures -1 <= end < |s| || end == -1
  {
    if First(s, '\n') == |s| then -1
    else if Blank(s[..LineLen(s)]) then 0
    else
      var rest := HeaderEnd(s[LineLen(s)..]);
      if rest < 0 then -1 else LineLen(s) + rest
  }

  function Lines(h: string): seq<string> {
    if h == [] then [] else [h[..LineLen(h)]] + Lines(h[LineLen(h)..])
  }

  function Join(lines: seq<string>): string { if lines == [] then [] else lines[0] + Join(lines[1..]) }

  predicate Continues(line: string) { line != [] && (line[0] == ' ' || line[0] == '\t') }

  /** The lines that stay; a continuation line shares the fate of its field. */
  function Kept(lines: seq<string>, skipping: bool): seq<string> {
    if lines == [] then []
    else
      var skip := if Continues(lines[0]) then skipping else IsBccField(lines[0]);
      (if skip then [] else [lines[0]]) + Kept(lines[1..], skip)
  }

  function Strip(s: string): string {
    var end := HeaderEnd(s);
    if end < 0 then s else Join(Kept(Lines(s[..end]), false)) + s[end..]
  }

  // The code.

  method IndexByte(a: array<char>, from: nat, to: nat, c: char) returns (j: int)
    requires from <= to <= a.Length
    ensures j == if First(a[from..to], c) < to - from then First(a[from..to], c) else -1
  {
    j := from;
    while j < to && a[j] != c
      invariant from <= j <= to && forall k | from <= k < j :: a[k] != c
    {
      j := j + 1;
    }
    FirstIs(a[from..to], c, j - from);
    if j == to { j := -1; } else { j := j - from; }
  }

  lemma {:induction false} FirstIs(s: string, c: char, i: nat)
    requires i <= |s| && (i < |s| ==> s[i] == c) && forall k | 0 <= k < i :: s[k] != c
    ensures First(s, c) == i
  {
    if i > 0 { FirstIs(s[1..], c, i - 1); }
  }

  /** Whether the line that ends at the line feed `j` is blank. */
  predicate BlankAt(s: string, j: nat)
    requires j < |s|
  {
    j == 0 || (j == 1 && s[0] == '\r')
  }

  lemma HeaderStep(s: string)
    ensures var j := First(s, '\n');
            HeaderEnd(s) == if j == |s| then -1
                            else if BlankAt(s, j) then 0
                            else if HeaderEnd(s[j + 1..]) < 0 then -1 else j + 1 + HeaderEnd(s[j + 1..])
  {
    hide First, LineLen, Blank, BlankAt;
    LineLenIs(s);
    if First(s, '\n') < |s| { BlankIs(s, First(s, '\n')); }
  }

  lemma LineLenIs(s: string)
    ensures LineLen(s) == if First(s, '\n') < |s| then First(s, '\n') + 1 else |s|
  {
  }

  lemma BlankIs(s: string, j: nat)
    requires j < |s| && s[j] == '\n'
    ensures Blank(s[..j + 1]) <==> BlankAt(s, j)
  {
    if j == 0 { assert s[..1] == "\n"; }
    if j == 1 && s[0] == '\r' { assert s[..2] == "\r\n"; }
  }

  method FindHeaderEnd(a: array<char>, n: nat) returns (end: int)
    requires n <= a.Length
    ensures end == HeaderEnd(a[..n])
  {
    hide HeaderEnd;
    ghost var s := a[..n];
    var i := 0;
    assert s[0..] == s;
    while i < n
      invariant i <= n
      invariant HeaderEnd(s) == if HeaderEnd(s[i..]) < 0 then -1 else i + HeaderEnd(s[i..])
      decreases n - i
    {
      assert a[i..n] == s[i..];
      HeaderStep(s[i..]);
      var j := IndexByte(a, i, n, '\n');
      if j < 0 { return -1; }
      if j == 0 || (j == 1 && a[i] == '\r') { return i; }
      assert s[i..][j + 1..] == s[i + j + 1..];
      i := i + j + 1;
    }
    HeaderStep(s[i..]);
    return -1;
  }

  /** What is left to write, once reading is at the line that starts `rest`. */
  function Rest(rest: string, skipping: bool): string { Join(Kept(Lines(rest), skipping)) }

  lemma RestStep(rest: string, skipping: bool)
    requires rest != []
    ensures var line, more := rest[..LineLen(rest)], rest[LineLen(rest)..];
            var skip := if rest[0] != ' ' && rest[0] != '\t' then IsBccField(line) else skipping;
            Rest(rest, skipping) == (if skip then [] else line) + Rest(more, skip)
  {
    hide IsBccField;
    var line := rest[..LineLen(rest)];
    var skip := if Continues(line) then skipping else IsBccField(line);
    assert Lines(rest)[1..] == Lines(rest[LineLen(rest)..]);
    var tail := Kept(Lines(rest[LineLen(rest)..]), skip);
    assert ([line] + tail)[1..] == tail && [] + tail == tail;
  }

  /** Strips a message held in the first `n` bytes; the result is the first `m`.
      Writing never overtakes reading. */
  method StripBcc(a: array<char>, n: nat) returns (m: nat)
    requires n <= a.Length
    modifies a
    ensures m <= n && a[..m] == Strip(old(a[..n])) && a[n..] == old(a[n..])
  {
    hide Rest, HeaderEnd, Strip;
    var end := FindHeaderEnd(a, n);
    ghost var s, tail := a[..n], a[n..];
    StripIsRest(s);
    if end < 0 { return n; }
    assert a[..end] == s[..end] && a[end..] == s[end..] + tail;
    var out := StripHeader(a, end);
    ghost var kept := a[..out];
    assert a[end..n] == a[end..][..n - end] == s[end..] && a[n..] == a[end..][n - end..] == tail;
    Move(a, out, end, n);
    m := out + (n - end);
    assert a[..m] == kept + s[end..];
  }

  method StripHeader(a: array<char>, end: nat) returns (out: nat)
    requires end <= a.Length
    modifies a
    ensures out <= end && a[..out] == Rest(old(a[..end]), false) && a[end..] == old(a[end..])
  {
    hide Rest;
    ghost var h, all := a[..end], a[..];
    var i, skipping := 0, false;
    out := 0;
    assert h[0..] == h && a[..0] == [];
    while i < end
      invariant out <= i <= end
      invariant a[i..] == all[i..]
      invariant a[..out] + Rest(h[i..], skipping) == Rest(h, false)
      decreases end - i
    {
      ghost var from := i;
      assert a[i..end] == all[i..][..end - i] == h[i..];
      i, out, skipping := StripLine(a, i, end, out, skipping, h[i..]);
      assert h[from..][i - from..] == h[i..];
      assert all[from..][i - from..] == all[i..];
    }
    RestEmpty(skipping);
    assert h[end..] == [];
  }

  lemma RestEmpty(skipping: bool)
    ensures Rest([], skipping) == []
  {
  }

  lemma StripIsRest(s: string)
    ensures Strip(s) == if HeaderEnd(s) < 0 then s else Rest(s[..HeaderEnd(s)], false) + s[HeaderEnd(s)..]
  {
  }

  /** Reads one line of the header and keeps or drops it. */
  method StripLine(a: array<char>, i: nat, end: nat, out: nat, skipping: bool, ghost rest: string)
    returns (next: nat, out': nat, skip: bool)
    requires out <= i < end <= a.Length && a[i..end] == rest
    modifies a
    ensures i < next <= end && out <= out' <= next && a[next..] == old(a[next..])
    ensures a[..out'] + Rest(rest[next - i..], skip) == old(a[..out]) + Rest(rest, skipping)
  {
    hide IsBccField, Rest, LineLen;
    RestStep(rest, skipping);
    next, skip := ReadLine(a, i, end, skipping);
    out' := out;
    if !skip {
      Move(a, out, i, next);
      out' := out + (next - i);
    }
  }

  /** The end of the line that starts at `i`, and whether it is dropped. */
  method ReadLine(a: array<char>, i: nat, end: nat, skipping: bool) returns (next: nat, skip: bool)
    requires i < end <= a.Length
    ensures next == i + LineLen(a[i..end])
    ensures var line := a[i..end][..LineLen(a[i..end])];
            line == a[i..next] && skip == if a[i] != ' ' && a[i] != '\t' then IsBccField(line) else skipping
  {
    hide IsBccField, First;
    var j := IndexByte(a, i, end, '\n');
    next := if j >= 0 then i + j + 1 else end;
    assert a[i..end][..next - i] == a[i..next];
    skip := if a[i] != ' ' && a[i] != '\t' then IsBccField(a[i..next]) else skipping;
  }

  /** A sequence whose bytes from `from` on were copied down to `at`, `k` so far. */
  function Moved(s: string, at: nat, from: nat, k: nat): string
    requires at <= from && from + k <= |s|
  {
    s[..at] + s[from..from + k] + s[at + k..]
  }

  lemma MovedOne(s: string, at: nat, from: nat, k: nat)
    requires at <= from && from + k < |s|
    ensures |Moved(s, at, from, k)| == |s| && Moved(s, at, from, k)[from + k] == s[from + k]
    ensures Moved(s, at, from, k + 1) == Moved(s, at, from, k)[at + k := s[from + k]]
  {
    var was, now := Moved(s, at, from, k), Moved(s, at, from, k + 1);
    MovedAt(s, at, from, k);
    MovedAt(s, at, from, k + 1);
    hide Moved;
    assert forall i | 0 <= i < |s| :: now[i] == was[at + k := s[from + k]][i];
  }

  lemma MovedAt(s: string, at: nat, from: nat, k: nat)
    requires at <= from && from + k <= |s|
    ensures |Moved(s, at, from, k)| == |s|
    ensures forall i | 0 <= i < |s| :: Moved(s, at, from, k)[i] == if at <= i < at + k then s[i + (from - at)] else s[i]
  {
  }

  lemma MovedParts(s: string, at: nat, from: nat, k: nat)
    requires at <= from && from + k <= |s|
    ensures |Moved(s, at, from, k)| == |s| && Moved(s, at, from, k)[..at + k] == s[..at] + s[from..from + k]
    ensures Moved(s, at, from, k)[from + k..] == s[from + k..] && Moved(s, at, from, 0) == s
  {
  }

  /** Copies [from, to) down to `at`. */
  method Move(a: array<char>, at: nat, from: nat, to: nat)
    requires at <= from <= to <= a.Length
    modifies a
    ensures a[..at + (to - from)] == old(a[..at]) + old(a[from..to]) && a[to..] == old(a[to..])
  {
    hide Moved;
    ghost var s := a[..];
    MovedParts(s, at, from, 0);
    var k := 0;
    while k < to - from
      invariant k <= to - from && a[..] == Moved(s, at, from, k)
    {
      MovedOne(s, at, from, k);
      a[at + k] := a[from + k];
      k := k + 1;
    }
    MovedParts(s, at, from, k);
    assert a[..at + k] == a[..][..at + k] && a[to..] == a[..][to..];
  }
}
