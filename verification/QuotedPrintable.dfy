/** The quoted-printable writer for message bodies; section 6.7 of RFC 2045
    describes what a decoder does. */
module QuotedPrintable {
  import opened Sequences

  const CRLF: Bytes := ['\r', '\n']
  const SOFT: Bytes := ['=', '\r', '\n']
  const MAX := 76

  function HexDigit(n: int): (c: Byte)
    requires 0 <= n < 16
    ensures Hex(c) && HexValue(c) == n && c == "0123456789ABCDEF"[n]
  {
    if n < 10 then (n + '0' as int) as char else (n - 10 + 'A' as int) as char
  }

  predicate Hex(c: Byte) { '0' <= c <= '9' || 'A' <= c <= 'F' }

  function HexValue(c: Byte): (n: int)
    requires Hex(c)
    ensures 0 <= n < 16
  {
    if c <= '9' then c as int - '0' as int else c as int - 'A' as int + 10
  }

  predicate Escaped(c: Byte) { c == '=' || c as int < 32 || c as int > 126 }

  function Encoded(c: Byte): (e: Bytes)
    ensures 1 <= |e| <= 3
  {
    if Escaped(c) then ['=', HexDigit(c as int / 16), HexDigit(c as int % 16)] else [c]
  }

  /** What is written for `s` when the current line already has `col` bytes. */
  function Encode(s: Bytes, col: int): Bytes {
    if s == [] then []
    else if s[0] == '\n' then CRLF + Encode(s[1..], 0)
    else if s[0] == '\r' then Encode(s[1..], col)
    else
      var e := Encoded(s[0]);
      if col + |e| > MAX - 1 then SOFT + e + Encode(s[1..], |e|)
      else e + Encode(s[1..], col + |e|)
  }

  method Write(s: Bytes) returns (out: Bytes)
    ensures out == Encode(s, 0)
  {
    out := [];
    var col := 0;
    assert s[0..] == s;
    for i := 0 to |s|
      invariant out + Encode(s[i..], col) == Encode(s, 0)
    {
      var c := s[i];
      ghost var rest := s[i + 1..];
      assert s[i..][0] == c && s[i..][1..] == rest;
      ghost var done := out;
      if c == '\n' {
        out := out + CRLF;
        col := 0;
        Assoc(done, CRLF, Encode(rest, col));
        continue;
      }
      if c == '\r' { continue; }
      var e := Encoded(c);
      if col + |e| > MAX - 1 {
        out := out + SOFT;
        col := 0;
      }
      out := out + e;
      col := col + |e|;
      Assoc(done, SOFT + e, Encode(rest, col));
      Assoc(done, SOFT, e);
      Assoc(done, e, Encode(rest, col));
    }
  }

  // Line length.

  predicate AtCrlf(t: Bytes) { |t| >= 2 && t[0] == '\r' && t[1] == '\n' }

  /** The longest line between CRLFs, the first one counted from `col`. */
  function LongestLine(t: Bytes, col: int): int {
    if t == [] then col
    else if AtCrlf(t) then
      var more := LongestLine(t[2..], 0);
      if more > col then more else col
    else LongestLine(t[1..], col + 1)
  }

  lemma CrlfLine(t: Bytes, col: int)
    ensures LongestLine(CRLF + t, col) == var more := LongestLine(t, 0); if more > col then more else col
  {
    assert (CRLF + t)[2..] == t;
  }

  /** Bytes that are no carriage return only make the line longer. */
  lemma {:induction false} PlainLine(e: Bytes, t: Bytes, col: int)
    requires '\r' !in e
    ensures LongestLine(e + t, col) == LongestLine(t, col + |e|)
  {
    if e == [] {
      assert e + t == t;
    } else {
      assert (e + t)[0] == e[0] && (e + t)[1..] == e[1..] + t;
      PlainLine(e[1..], t, col + 1);
    }
  }

  /** No line written is longer than 76 bytes. */
  lemma {:induction false} LinesAreShort(s: Bytes, col: int)
    requires 0 <= col <= 75
    ensures LongestLine(Encode(s, col), col) <= 76
    decreases |s|
  {
    if s == [] {
    } else if s[0] == '\n' {
      LinesAreShort(s[1..], 0);
      CrlfLine(Encode(s[1..], 0), col);
    } else if s[0] == '\r' {
      LinesAreShort(s[1..], col);
    } else {
      ByteLine(s, col);
    }
  }

  lemma ByteLine(s: Bytes, col: int)
    requires 0 <= col <= MAX - 1 && s != [] && s[0] != '\n' && s[0] != '\r'
    ensures LongestLine(Encode(s, col), col) <= MAX
    decreases |s|, 0
  {
    hide LongestLine;
    var e := Encoded(s[0]);
    if col + |e| > MAX - 1 {
      var rest := Encode(s[1..], |e|);
      LinesAreShort(s[1..], |e|);
      PlainLine(e, rest, 0);
      CrlfLine(e + rest, col + 1);
      PlainLine(['='], CRLF + (e + rest), col);
      assert SOFT + e + rest == ['='] + (CRLF + (e + rest));
    } else {
      LinesAreShort(s[1..], col + |e|);
      PlainLine(e, Encode(s[1..], col + |e|), col);
    }
  }

  /** The length of an escape, or 1. */
  function UnitLen(t: Bytes): (n: nat)
    requires t != []
    ensures 1 <= n <= |t|
  {
    if |t| >= 3 && t[0] == '=' then 3 else 1
  }

  /** Every soft line break comes where the next byte or escape, and the sign of a
      break after it, would not have fit on the line, which has `col` bytes. */
  predicate Tight(t: Bytes, col: int)
    decreases |t|
  {
    if t == [] then true
    else if SOFT <= t then (t[3..] != [] ==> col + UnitLen(t[3..]) + 1 > 76) && Tight(t[3..], 0)
    else if AtCrlf(t) then Tight(t[2..], 0)
    else Tight(t[UnitLen(t)..], col + UnitLen(t))
  }

  lemma UnitIsTight(c: Byte, t: Bytes, col: int)
    requires c != '\r' && c != '\n'
    ensures UnitLen(Encoded(c) + t) == |Encoded(c)| && !(SOFT <= Encoded(c) + t) && !AtCrlf(Encoded(c) + t)
    ensures (Encoded(c) + t)[|Encoded(c)|..] == t
  {
    var e, all := Encoded(c), Encoded(c) + t;
    assert all[0] == e[0];
    if Escaped(c) { assert all[1] == e[1] && Hex(e[1]); }
  }

  /** Lines are broken only where they must be, and nothing is written but printable
      ASCII and line ends. */
  lemma {:induction false} BreaksOnlyWhenNeeded(s: Bytes, col: int)
    ensures Tight(Encode(s, col), col) && Writable(Encode(s, col))
    decreases |s|
  {
    if s == [] {
    } else if s[0] == '\n' {
      var rest := Encode(s[1..], 0);
      BreaksOnlyWhenNeeded(s[1..], 0);
      assert (CRLF + rest)[2..] == rest && (CRLF + rest)[0] == '\r';
      WritableParts(CRLF, rest);
    } else if s[0] == '\r' {
      BreaksOnlyWhenNeeded(s[1..], col);
    } else {
      ByteIsTight(s, col);
    }
    hide Encoded, UnitLen, Writable;
  }

  predicate Writable(t: Bytes) { forall c | c in t :: ' ' <= c <= '~' || c == '\r' || c == '\n' }

  /** A byte or escape on the line, and after a break. */
  lemma TightUnit(c: Byte, rest: Bytes, col: int)
    requires c != '\r' && c != '\n' && Tight(rest, col + |Encoded(c)|)
    ensures Tight(Encoded(c) + rest, col)
  {
    UnitIsTight(c, rest, col);
    hide Encoded, UnitLen;
  }

  lemma TightBreak(c: Byte, rest: Bytes, col: int)
    requires c != '\r' && c != '\n' && Tight(rest, |Encoded(c)|) && col + |Encoded(c)| + 1 > 76
    ensures Tight(SOFT + (Encoded(c) + rest), col)
  {
    var t := Encoded(c) + rest;
    TightUnit(c, rest, 0);
    UnitIsTight(c, rest, 0);
    hide Encoded, UnitLen;
    assert (SOFT + t)[3..] == t;
  }

  lemma ByteIsTight(s: Bytes, col: int)
    requires s != [] && s[0] != '\n' && s[0] != '\r'
    ensures Tight(Encode(s, col), col) && Writable(Encode(s, col))
    decreases |s|, 0
  {
    hide Encoded, Tight, Writable;
    var e := Encoded(s[0]);
    var breaks := col + |e| > MAX - 1;
    var next := if breaks then |e| else col + |e|;
    var rest := Encode(s[1..], next);
    BreaksOnlyWhenNeeded(s[1..], next);
    EncodedIsPlain(s[0]);
    WritableParts(e, rest);
    WritableParts(SOFT, e + rest);
    if breaks {
      Assoc(SOFT, e, rest);
      TightBreak(s[0], rest, col);
    } else {
      TightUnit(s[0], rest, col);
    }
  }

  lemma WritableParts(a: Bytes, b: Bytes)
    ensures Writable(SOFT) && Writable(CRLF) && (Writable(a + b) <==> Writable(a) && Writable(b))
  {
    assert forall c :: c in a + b <==> c in a || c in b;
  }

  lemma EncodedIsPlain(c: Byte)
    ensures Writable(Encoded(c))
  {
  }

  // Decoding.

  predicate Space(c: Byte) { c == ' ' || c == '\t' }

  /** White space, if any, and then the end of the line or of the text. */
  predicate LineEnds(t: Bytes) {
    t == [] || AtCrlf(t) || (Space(t[0]) && LineEnds(t[1..]))
  }

  /** Deletes white space at the ends of lines, joins soft line breaks and
      decodes escapes. */
  function Decode(t: Bytes): Bytes {
    if t == [] then []
    else if SOFT <= t then Decode(t[3..])
    else if AtCrlf(t) then CRLF + Decode(t[2..])
    else if |t| >= 3 && t[0] == '=' && Hex(t[1]) && Hex(t[2]) then
      [(16 * HexValue(t[1]) + HexValue(t[2])) as char] + Decode(t[3..])
    else if Space(t[0]) && LineEnds(t[1..]) then Decode(t[1..])
    else [t[0]] + Decode(t[1..])
  }

  /** The text with its line ends normalised: each line feed is a CRLF and
      carriage returns are nothing. */
  function Normal(s: Bytes): Bytes {
    if s == [] then []
    else (if s[0] == '\n' then CRLF else if s[0] == '\r' then [] else [s[0]]) + Normal(s[1..])
  }

  /** The next thing is a line feed or the end of the text. */
  predicate EndsHere(s: Bytes) { s == [] || s[0] == '\n' || (s[0] == '\r' && EndsHere(s[1..])) }

  /** No space comes before a line end or the end of the text. */
  predicate NoSpaceAtEnd(s: Bytes) {
    s == [] || (!(s[0] == ' ' && EndsHere(s[1..])) && NoSpaceAtEnd(s[1..]))
  }

  /** A line of the encoded text ends where the text has only spaces left. */
  lemma {:induction false} EndsMeansSpaces(s: Bytes, col: int)
    requires LineEnds(Encode(s, col))
    ensures EndsHere(s) || !NoSpaceAtEnd(s)
  {
    if s != [] && s[0] != '\n' {
      if s[0] == '\r' {
        EndsMeansSpaces(s[1..], col);
      } else {
        var e := Encoded(s[0]);
        assert col + |e| <= MAX - 1 && e == [' '];
        assert Encode(s, col)[1..] == Encode(s[1..], col + |e|);
        EndsMeansSpaces(s[1..], col + |e|);
      }
    }
  }

  lemma {:induction false} EndEncodes(s: Bytes, col: int)
    requires EndsHere(s)
    ensures LineEnds(Encode(s, col))
  {
    if s != [] && s[0] == '\r' { EndEncodes(s[1..], col); }
  }

  lemma DecodeEscape(c: Byte, t: Bytes)
    requires Escaped(c)
    ensures Decode(Encoded(c) + t) == [c] + Decode(t)
  {
    var all := Encoded(c) + t;
    assert all[0] == '=' && all[1] == HexDigit(c as int / 16) && all[2] == HexDigit(c as int % 16);
    assert all[3..] == t;
  }

  lemma DecodePlain(c: Byte, t: Bytes)
    requires !Escaped(c)
    ensures Decode(Encoded(c) + t) == if c == ' ' && LineEnds(t) then Decode(t) else [c] + Decode(t)
  {
    var all := Encoded(c) + t;
    assert all[0] == c && all[1..] == t;
  }

  lemma DecodeSoft(t: Bytes)
    ensures Decode(SOFT + t) == Decode(t)
  {
    assert (SOFT + t)[3..] == t;
  }

  lemma DecodeCrlf(t: Bytes)
    ensures Decode(CRLF + t) == CRLF + Decode(t)
  {
    assert (CRLF + t)[2..] == t && (CRLF + t)[0] == '\r';
  }

  /** Decoding never makes more of the text, and gives it back exactly when no
      space comes before a line end or the end of the text. */
  lemma {:induction false} RoundTrip(s: Bytes, col: int)
    ensures |Decode(Encode(s, col))| <= |Normal(s)|
    ensures Decode(Encode(s, col)) == Normal(s) <==> NoSpaceAtEnd(s)
    decreases |s|
  {
    hide Decode, LineEnds;
    if s == [] {
      DecodeNothing();
    } else if s[0] == '\n' {
      RoundTrip(s[1..], 0);
      DecodeCrlf(Encode(s[1..], 0));
      Cancel(CRLF, Decode(Encode(s[1..], 0)), Normal(s[1..]));
    } else if s[0] == '\r' {
      RoundTrip(s[1..], col);
    } else {
      RoundTripByte(s, col);
    }
  }

  lemma DecodeNothing()
    ensures Decode([]) == []
  {
  }

  lemma RoundTripByte(s: Bytes, col: int)
    requires s != [] && s[0] != '\n' && s[0] != '\r'
    ensures |Decode(Encode(s, col))| <= |Normal(s)|
    ensures Decode(Encode(s, col)) == Normal(s) <==> NoSpaceAtEnd(s)
    decreases |s|, 0
  {
    hide Decode, LineEnds;
    var c, e := s[0], Encoded(s[0]);
    var next := if col + |e| > MAX - 1 then |e| else col + |e|;
    var t := Encode(s[1..], next);
    RoundTrip(s[1..], next);
    DecodeSoft(e + t);
    assert SOFT + e + t == SOFT + (e + t);
    Cancel([c], Decode(t), Normal(s[1..]));
    if Escaped(c) {
      DecodeEscape(c, t);
    } else {
      DecodePlain(c, t);
      if LineEnds(t) { EndsMeansSpaces(s[1..], next); }
      if EndsHere(s[1..]) { EndEncodes(s[1..], next); }
    }
  }

  /** An input on which it does not: a single space is lost. */
  lemma LoneSpaceIsLost()
    ensures Decode(Encode([' '], 0)) != Normal([' '])
  {
    assert [' '][1..] == [];
    RoundTrip([' '], 0);
  }
}
