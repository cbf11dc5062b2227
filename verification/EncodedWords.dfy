/** Forced encoded-words of section 2 of RFC 2047: UTF-8 text, cut on rune
    boundaries and base64-encoded. */
module EncodedWords {
  import opened Prelude
  import opened Sequences
  import opened HeaderFolding
  import Utf8

  // Base64.

  function Digit(n: int): (c: char)
    requires 0 <= n < 64
    ensures Value(c) == Some(n) && c != ' ' && c != '\r'
  {
    if n < 26 then (n + 'A' as int) as char
    else if n < 52 then (n - 26 + 'a' as int) as char
    else if n < 62 then (n - 52 + '0' as int) as char
    else if n == 62 then '+' else '/'
  }

  function Value(c: char): (v: Option<int>)
    ensures v.Some? ==> 0 <= v.value < 64
  {
    if 'A' <= c <= 'Z' then Some(c as int - 'A' as int)
    else if 'a' <= c <= 'z' then Some(c as int - 'a' as int + 26)
    else if '0' <= c <= '9' then Some(c as int - '0' as int + 52)
    else if c == '+' then Some(62) else if c == '/' then Some(63) else None
  }

  /** Three bytes as four digits, and back. */
  function First(a: Byte): int { a as int / 4 }
  function Second(a: Byte, b: Byte): int { a as int % 4 * 16 + b as int / 16 }
  function Third(b: Byte, c: Byte): int { b as int % 16 * 4 + c as int / 64 }
  function Fourth(c: Byte): int { c as int % 64 }

  function Byte1(p: int, q: int): Byte requires 0 <= p < 64 && 0 <= q < 64 { (p * 4 + q / 16) as char }
  function Byte2(q: int, r: int): Byte requires 0 <= q < 64 && 0 <= r < 64 { (q % 16 * 16 + r / 4) as char }
  function Byte3(r: int, u: int): Byte requires 0 <= r < 64 && 0 <= u < 64 { (r % 4 * 64 + u) as char }

  lemma Bits(a: Byte, b: Byte, c: Byte)
    ensures 0 <= First(a) < 64 && 0 <= Second(a, b) < 64 && 0 <= Third(b, c) < 64 && 0 <= Fourth(c) < 64
    ensures Byte1(First(a), Second(a, b)) == a
    ensures Byte2(Second(a, b), Third(b, c)) == b
    ensures Byte3(Third(b, c), Fourth(c)) == c
  {
  }

  function Group(a: Byte, b: Byte, c: Byte): (g: string)
    ensures |g| == 4 && ' ' !in g && '\r' !in g
    ensures Value(g[0]) == Some(First(a)) && Value(g[1]) == Some(Second(a, b))
    ensures Value(g[2]) == Some(Third(b, c)) && Value(g[3]) == Some(Fourth(c))
  {
    Bits(a, b, c);
    [Digit(First(a)), Digit(Second(a, b)), Digit(Third(b, c)), Digit(Fourth(c))]
  }

  const ZERO: Byte := '\0'

  function Base64(s: Bytes): string {
    match |s|
    case 0 => []
    case 1 => Group(s[0], ZERO, ZERO)[..2] + "=="
    case 2 => Group(s[0], s[1], ZERO)[..3] + "="
    case _ => Group(s[0], s[1], s[2]) + Base64(s[3..])
  }

  /** Groups of four digits; only the last may be padded. */
  function FromBase64(t: string): Option<Bytes> {
    if t == [] then Some([])
    else if |t| < 4 || Value(t[0]).None? || Value(t[1]).None? then None
    else
      var p, q := Value(t[0]).value, Value(t[1]).value;
      if t[2] == '=' && t[3] == '=' then if |t| == 4 then Some([Byte1(p, q)]) else None
      else if Value(t[2]).None? then None
      else
        var r := Value(t[2]).value;
        if t[3] == '=' then if |t| == 4 then Some([Byte1(p, q), Byte2(q, r)]) else None
        else if Value(t[3]).None? then None
        else
          match FromBase64(t[4..])
          case None => None
          case Some(rest) => Some([Byte1(p, q), Byte2(q, r), Byte3(r, Value(t[3]).value)] + rest)
  }

  lemma GroupDecodes(a: Byte, b: Byte, c: Byte, rest: string)
    ensures FromBase64(Group(a, b, c) + rest) ==
            match FromBase64(rest) case None => None case Some(more) => Some([a, b, c] + more)
  {
    PadIsNoDigit();
    hide Value, Digit, Byte1, Byte2, Byte3, First, Second, Third, Fourth, Group;
    Bits(a, b, c);
    var g := Group(a, b, c);
    Glue(g, rest);
    assert (g + rest)[0] == g[0] && (g + rest)[1] == g[1] && (g + rest)[2] == g[2] && (g + rest)[3] == g[3];
  }

  /** The digits are the alphabet of section 4 of RFC 4648: A to Z, a to z, 0 to 9, in
      this order and without gaps, a plus sign and a slash. */
  lemma DigitsAreAlphabet(n: int)
    requires 0 <= n < 63
    ensures Digit(0) == 'A' && Digit(26) == 'a' && Digit(52) == '0' && Digit(62) == '+' && Digit(63) == '/'
    ensures n !in {25, 51, 61, 62} ==> Digit(n + 1) as int == Digit(n) as int + 1
  {
  }

  lemma PadIsNoDigit()
    ensures Value('=') == None
  {
  }

  lemma LastGroupDecodes(s: Bytes)
    requires |s| == 1 || |s| == 2
    ensures FromBase64(Base64(s)) == Some(s)
  {
    PadIsNoDigit();
    hide Value, Digit, Byte1, Byte2, Byte3, First, Second, Third, Fourth, Group;
    var b := if |s| == 2 then s[1] else ZERO;
    Bits(s[0], b, ZERO);
    var g, t := Group(s[0], b, ZERO), Base64(s);
    assert t[0] == g[0] && t[1] == g[1] && t[3] == '=' && t[2] == if |s| == 1 then '=' else g[2];
    assert s == if |s| == 1 then [s[0]] else [s[0], s[1]];
  }

  lemma {:induction false} Base64RoundTrip(s: Bytes)
    ensures FromBase64(Base64(s)) == Some(s)
  {
    hide FromBase64, Group;
    if s == [] {
      NothingDecodes();
    } else if 1 <= |s| <= 2 {
      LastGroupDecodes(s);
    } else if |s| > 2 {
      Base64RoundTrip(s[3..]);
      GroupDecodes(s[0], s[1], s[2], Base64(s[3..]));
      assert s == [s[0], s[1], s[2]] + s[3..];
    }
  }

  lemma NothingDecodes()
    ensures FromBase64([]) == Some([])
  {
  }

  lemma {:induction false} Base64Length(s: Bytes)
    ensures |Base64(s)| == (|s| + 2) / 3 * 4
  {
    hide Group;
    if |s| > 2 {
      Base64Length(s[3..]);
      Thirds(|s|);
    }
  }

  lemma Thirds(n: nat)
    requires n > 2
    ensures (n + 2) / 3 * 4 == (n - 3 + 2) / 3 * 4 + 4
  {
  }

  lemma {:induction false} Base64IsPlain(s: Bytes)
    ensures ' ' !in Base64(s) && '\r' !in Base64(s)
  {
    hide Group;
    if |s| > 2 { Base64IsPlain(s[3..]); }
  }

  // Runes.

  predicate Between(c: Byte, lo: int, hi: int) { lo <= c as int <= hi }

  /** Whether a sequence of `n` bytes starts here, by its first two bytes. */
  predicate Lead(a: Byte, b: Byte, n: int) {
    match n
    case 2 => Between(a, 0xC2, 0xDF) && Between(b, 0x80, 0xBF)
    case 3 =>
      || (a as int == 0xE0 && Between(b, 0xA0, 0xBF)) || (a as int == 0xED && Between(b, 0x80, 0x9F))
      || (Between(a, 0xE1, 0xEF) && a as int != 0xED && Between(b, 0x80, 0xBF))
    case 4 =>
      || (a as int == 0xF0 && Between(b, 0x90, 0xBF)) || (a as int == 0xF4 && Between(b, 0x80, 0x8F))
      || (Between(a, 0xF1, 0xF3) && Between(b, 0x80, 0xBF))
    case _ => false
  }

  predicate Tail(c: Byte) { Between(c, 0x80, 0xBF) }

  /** The length of the first rune; 1 for a byte that starts none. */
  function RuneSize(s: Bytes): (n: nat)
    requires s != []
    ensures 1 <= n <= 4 && n <= |s|
  {
    if |s| >= 2 && Lead(s[0], s[1], 2) then 2
    else if |s| >= 3 && Lead(s[0], s[1], 3) && Tail(s[2]) then 3
    else if |s| >= 4 && Lead(s[0], s[1], 4) && Tail(s[2]) && Tail(s[3]) then 4
    else 1
  }

  /** A scalar value whose encoding starts the text gives the length. */
  lemma EncodingIsRune(s: Bytes, x: int)
    requires s != [] && Utf8.Scalar(x) && Utf8.Encode(x) <= s
    ensures RuneSize(s) == |Utf8.Encode(x)|
  {
    hide Utf8.Encode;
    var e := Utf8.Encode(x);
    assert forall i | 0 <= i < |e| :: s[i] == e[i];
    Utf8.Leads(x);
    Utf8.Seconds(x);
  }

  /** And a length of more than one comes of such a value. */
  lemma RuneIsEncoding(s: Bytes) returns (x: int)
    requires s != [] && RuneSize(s) > 1
    ensures Utf8.Scalar(x) && s[..RuneSize(s)] == Utf8.Encode(x)
  {
    hide Utf8.Encode;
    var n, a, b := RuneSize(s), s[0] as int, s[1] as int - 0x80;
    if n == 2 {
      x := (a - 0xC0) * 0x40 + b;
      Utf8.TwoBytes(a - 0xC0, b);
    } else if n == 3 {
      x := ((a - 0xE0) * 0x40 + b) * 0x40 + (s[2] as int - 0x80);
      Utf8.ThreeBytes(a - 0xE0, b, s[2] as int - 0x80);
    } else {
      x := (((a - 0xF0) * 0x40 + b) * 0x40 + (s[2] as int - 0x80)) * 0x40 + (s[3] as int - 0x80);
      Utf8.FourBytes(a - 0xF0, b, s[2] as int - 0x80, s[3] as int - 0x80);
    }
  }

  /** The length of the first rune is that of the UTF-8 encoding the text starts
      with, and 1 if it starts with none. */
  lemma RuneSizeExactly(s: Bytes, n: nat)
    requires s != []
    ensures RuneSize(s) == n <==>
            || (exists x | Utf8.Scalar(x) :: Utf8.Encode(x) <= s && |Utf8.Encode(x)| == n)
            || (n == 1 && forall x | Utf8.Scalar(x) :: !(Utf8.Encode(x) <= s))
  {
    hide RuneSize, Utf8.Encode;
    forall x | Utf8.Scalar(x) && Utf8.Encode(x) <= s ensures RuneSize(s) == |Utf8.Encode(x)| {
      EncodingIsRune(s, x);
    }
    if RuneSize(s) > 1 {
      var x := RuneIsEncoding(s);
      assert Utf8.Encode(x) <= s;
    }
  }

  function Runes(s: Bytes): seq<Bytes> {
    if s == [] then [] else [s[..RuneSize(s)]] + Runes(s[RuneSize(s)..])
  }

  /** `n` is where one of the runes of `s` starts, or the end. */
  predicate Boundary(s: Bytes, n: nat)
    decreases |s|
  {
    n == 0 || (s != [] && RuneSize(s) <= n && Boundary(s[RuneSize(s)..], n - RuneSize(s)))
  }

  lemma SamePrefixSize(s: Bytes, n: nat)
    requires s != [] && RuneSize(s) <= n <= |s|
    ensures RuneSize(s[..n]) == RuneSize(s)
  {
  }

  /** Cutting on a rune boundary leaves the runes whole. */
  lemma {:induction false} CutKeepsRunes(s: Bytes, n: nat)
    requires n <= |s| && Boundary(s, n)
    ensures Runes(s) == Runes(s[..n]) + Runes(s[n..])
    decreases |s|
  {
    hide RuneSize, Runes, Boundary;
    if n == 0 {
      assert s[..0] == [] && s[0..] == s;
      NoRunes();
    } else {
      BoundaryStep(s, n);
      CutKeepsRunes(s[RuneSize(s)..], n - RuneSize(s));
      RunesOfPrefix(s, n);
      RunesStep(s);
      Slices(s, RuneSize(s), n);
      Assoc([s[..RuneSize(s)]], Runes(s[RuneSize(s)..][..n - RuneSize(s)]), Runes(s[n..]));
    }
  }

  lemma NoRunes()
    ensures Runes([]) == []
  {
  }

  lemma RunesOfPrefix(s: Bytes, n: nat)
    requires s != [] && RuneSize(s) <= n <= |s|
    ensures Runes(s[..n]) == [s[..RuneSize(s)]] + Runes(s[RuneSize(s)..][..n - RuneSize(s)])
  {
    SamePrefixSize(s, n);
    hide RuneSize, Runes;
    RunesStep(s[..n]);
    Slices(s, RuneSize(s), n);
  }

  lemma RunesStep(s: Bytes)
    requires s != []
    ensures Runes(s) == [s[..RuneSize(s)]] + Runes(s[RuneSize(s)..])
  {
  }

  // Words.

  const MAX_CHUNK := 45

  /** Where the chunk that has `n` bytes already ends. */
  function ChunkEnd(s: Bytes, n: nat): (end: nat)
    requires n <= |s|
    ensures n <= end <= |s| && (s != [] ==> end > 0) && (n <= MAX_CHUNK ==> end <= MAX_CHUNK)
    decreases |s| - n
  {
    if n == |s| then n
    else
      var size := RuneSize(s[n..]);
      if n + size > MAX_CHUNK && n > 0 then n else ChunkEnd(s, n + size)
  }

  function Chunks(s: Bytes): seq<Bytes> {
    if s == [] then [] else [s[..ChunkEnd(s, 0)]] + Chunks(s[ChunkEnd(s, 0)..])
  }

  const OPEN := "=?utf-8?b?"
  const CLOSE := "?="

  function Word(chunk: Bytes): (w: string) { OPEN + Base64(chunk) + CLOSE }

  function Words(chunks: seq<Bytes>): (ws: seq<string>)
    ensures |ws| == |chunks|
  {
    if chunks == [] then [] else [Word(chunks[0])] + Words(chunks[1..])
  }

  /** Separated by single spaces. */
  function Join(words: seq<string>): string { if words == [] then [] else words[0] + Spaced(words[1..]) }

  function Forced(s: Bytes): string { Join(Words(Chunks(s))) }

  method ForceEncodedWords(s: Bytes) returns (out: string)
    ensures out == Forced(s)
  {
    hide RuneSize, Word;
    var rest := s;
    var words: seq<string> := [];
    assert [] + Words(Chunks(s)) == Words(Chunks(s));
    while rest != []
      invariant words + Words(Chunks(rest)) == Words(Chunks(s))
      decreases |rest|
    {
      var n := 0;
      while n < |rest|
        invariant n <= |rest| && ChunkEnd(rest, n) == ChunkEnd(rest, 0)
      {
        var size := RuneSize(rest[n..]);
        if n + size > MAX_CHUNK && n > 0 { break; }
        n := n + size;
      }
      WordsStep(rest);
      Assoc(words, [Word(rest[..n])], Words(Chunks(rest[n..])));
      words := words + [Word(rest[..n])];
      rest := rest[n..];
    }
    assert words + [] == words;
    out := Join(words);
  }

  lemma WordsStep(s: Bytes)
    requires s != []
    ensures Words(Chunks(s)) == [Word(s[..ChunkEnd(s, 0)])] + Words(Chunks(s[ChunkEnd(s, 0)..]))
  {
    var c := Chunks(s);
    assert c[0] == s[..ChunkEnd(s, 0)] && c[1..] == Chunks(s[ChunkEnd(s, 0)..]);
  }

  /** A chunk ends on a rune boundary. */
  lemma {:induction false} ChunkOnBoundary(s: Bytes, n: nat)
    requires n <= |s| && Boundary(s, n)
    ensures Boundary(s, ChunkEnd(s, n))
    decreases |s| - n
  {
    if n < |s| {
      var size := RuneSize(s[n..]);
      if !(n + size > MAX_CHUNK && n > 0) {
        BoundaryNext(s, n);
        ChunkOnBoundary(s, n + size);
      }
    }
  }

  lemma BoundaryStep(s: Bytes, n: nat)
    requires n > 0
    ensures Boundary(s, n) <==> s != [] && RuneSize(s) <= n && Boundary(s[RuneSize(s)..], n - RuneSize(s))
  {
  }

  lemma BoundaryAtStart(s: Bytes)
    ensures Boundary(s, 0) && (s != [] ==> Boundary(s, RuneSize(s)))
  {
  }

  lemma {:induction false} BoundaryNext(s: Bytes, n: nat)
    requires n < |s| && Boundary(s, n)
    ensures Boundary(s, n + RuneSize(s[n..]))
    decreases |s|
  {
    hide RuneSize, Boundary;
    if n == 0 {
      assert s[0..] == s;
      BoundaryAtStart(s);
    } else {
      BoundaryStep(s, n);
      var k := RuneSize(s);
      Slices(s, k, n);
      BoundaryNext(s[k..], n - k);
      BoundaryStep(s, n + RuneSize(s[n..]));
    }
  }

  function AllRunes(chunks: seq<Bytes>): seq<Bytes> {
    if chunks == [] then [] else Runes(chunks[0]) + AllRunes(chunks[1..])
  }

  function Concatenated(chunks: seq<Bytes>): Bytes {
    if chunks == [] then [] else chunks[0] + Concatenated(chunks[1..])
  }

  /** The chunks are the text, cut between runes only, each of 1 to 45 bytes. */
  lemma {:induction false} ChunksKeepRunes(s: Bytes)
    ensures AllRunes(Chunks(s)) == Runes(s) && Concatenated(Chunks(s)) == s
    ensures forall c | c in Chunks(s) :: 1 <= |c| <= 45
  {
    if s != [] {
      hide ChunkEnd, Runes, Boundary;
      var n := ChunkEnd(s, 0);
      ChunkOnBoundary(s, 0);
      CutKeepsRunes(s, n);
      ChunksKeepRunes(s[n..]);
      Glue([s[..n]], Chunks(s[n..]));
      Slices(s, n, n);
    }
  }

  /** A chunk ends only where the next rune would not have fit. */
  lemma {:induction false} ChunkIsFull(s: Bytes, n: nat)
    requires n <= |s|
    ensures var end := ChunkEnd(s, n); end < |s| ==> end + RuneSize(s[end..]) > 45
    decreases |s| - n
  {
    hide RuneSize;
    if n < |s| {
      var size := RuneSize(s[n..]);
      if !(n + size > MAX_CHUNK && n > 0) { ChunkIsFull(s, n + size); }
    }
  }

  /** So no chunk but the last has room for the first rune of the next. */
  lemma {:induction false} ChunksAreFull(s: Bytes, i: nat)
    requires i + 1 < |Chunks(s)|
    ensures Chunks(s)[i + 1] != [] && |Chunks(s)[i]| + RuneSize(Chunks(s)[i + 1]) > 45
    decreases |s|
  {
    hide RuneSize, ChunkEnd;
    var n := ChunkEnd(s, 0);
    var rest := s[n..];
    assert Chunks(s) == [s[..n]] + Chunks(rest);
    if i == 0 {
      ChunkIsFull(s, 0);
      FirstRune(rest);
    } else {
      ChunksAreFull(rest, i - 1);
    }
  }

  lemma FirstRune(s: Bytes)
    requires s != []
    ensures Chunks(s)[0] != [] && RuneSize(Chunks(s)[0]) == RuneSize(s)
  {
    hide RuneSize, ChunkEnd, Boundary;
    var n := ChunkEnd(s, 0);
    BoundaryAtStart(s);
    ChunkOnBoundary(s, 0);
    BoundaryStep(s, n);
    SamePrefixSize(s, n);
  }

  lemma WordIsShort(chunk: Bytes)
    requires |chunk| <= MAX_CHUNK
    ensures |Word(chunk)| <= 72 && ' ' !in Word(chunk) && '\r' !in Word(chunk)
  {
    Base64IsPlain(chunk);
    Base64Length(chunk);
    hide Base64;
    assert (|chunk| + 2) / 3 <= 15;
  }

  /** No encoded-word is longer than 72 characters, and none has a space. */
  lemma {:induction false} WordsAreShort(chunks: seq<Bytes>)
    requires forall c | c in chunks :: |c| <= MAX_CHUNK
    ensures forall w | w in Words(chunks) :: |w| <= 72 && ' ' !in w && '\r' !in w
  {
    hide Word;
    if chunks != [] {
      assert chunks[0] in chunks;
      WordIsShort(chunks[0]);
      WordsAreShort(chunks[1..]);
    }
  }

  // Decoding.

  /** The text of one encoded-word, in base64 and UTF-8. */
  function DecodeWord(w: string): Option<Bytes> {
    if "=?utf-8?b?" <= w && |w| >= 12 && w[|w| - 2..] == "?=" then FromBase64(w[10..|w| - 2]) else None
  }

  /** The text of encoded-words; the space between them does not count. */
  function DecodeAll(words: seq<string>): Option<Bytes> {
    if words == [] then Some([])
    else
      match DecodeWord(words[0])
      case None => None
      case Some(first) =>
        match DecodeAll(words[1..])
        case None => None
        case Some(rest) => Some(first + rest)
  }

  lemma WordRoundTrip(chunk: Bytes)
    ensures DecodeWord(Word(chunk)) == Some(chunk)
  {
    Base64RoundTrip(chunk);
    hide FromBase64, Base64;
    var w := Word(chunk);
    assert w[|w| - |CLOSE|..] == CLOSE && w[|OPEN|..|w| - |CLOSE|] == Base64(chunk);
  }

  lemma {:induction false} WordsRoundTrip(chunks: seq<Bytes>)
    ensures DecodeAll(Words(chunks)) == Some(Concatenated(chunks))
  {
    if chunks != [] {
      hide DecodeWord, Word;
      WordRoundTrip(chunks[0]);
      WordsRoundTrip(chunks[1..]);
      assert Words(chunks)[1..] == Words(chunks[1..]);
    }
  }

  lemma TokensLetter(word: string, rest: string)
    requires word != [] && word[0] != ' '
    ensures var t := Tokens(word[1..] + rest); Tokens(word + rest) == [[word[0]] + t[0]] + t[1..]
  {
    assert (word + rest)[0] == word[0] && (word + rest)[1..] == word[1..] + rest;
  }

  lemma TokensSpace(rest: string)
    ensures Tokens(" " + rest) == [[]] + Tokens(rest)
  {
    assert (" " + rest)[0] == ' ' && (" " + rest)[1..] == rest;
  }

  /** Words without spaces are found again between the spaces. */
  lemma {:induction false} TokensOfJoined(word: string, more: seq<string>)
    requires ' ' !in word && forall w | w in more :: ' ' !in w
    ensures Tokens(word + Spaced(more)) == [word] + more
    decreases |more|, |word|
  {
    if word != [] {
      TokensOfJoined(word[1..], more);
      TokensLetter(word, Spaced(more));
      Glue([word[1..]], more);
      assert [word[0]] + word[1..] == word;
    } else if more == [] {
      assert word + Spaced(more) == [] && [word] + more == [[]];
    } else {
      TokensOfJoined(more[0], more[1..]);
      TokensSpace(more[0] + Spaced(more[1..]));
      assert word + Spaced(more) == " " + (more[0] + Spaced(more[1..]));
      assert [more[0]] + more[1..] == more;
    }
  }

  /** Forced encoded-words are at most 72 characters each, separated by single
      spaces, and decode to the text; so do their folded lines, unfolded. */
  lemma ForcedRoundTrip(s: Bytes, key: string)
    requires '\r' !in key
    ensures s != [] ==> DecodeAll(Tokens(Forced(s))) == Some(s)
    ensures s == [] ==> Forced(s) == []
    ensures forall t | t in Tokens(Forced(s)) :: |t| <= 72
    ensures Unfold(Fold(key, Forced(s))) == key + ": " + Forced(s) + CRLF
  {
    hide Chunks, Concatenated, Words, DecodeAll, Unfold, Fold, Unfolded, Tokens, FoldedLines;
    ChunksKeepRunes(s);
    var words := Words(Chunks(s));
    WordsAreShort(Chunks(s));
    WordsRoundTrip(Chunks(s));
    ForcedTokens(s);
    ForcedIsPlain(s);
    PlainIsUnfolded(key + ": " + Forced(s));
    FoldRoundTrip(key, Forced(s));
  }

  lemma ForcedTokens(s: Bytes)
    requires forall w | w in Words(Chunks(s)) :: ' ' !in w
    ensures if s == [] then Forced(s) == [] && Tokens(Forced(s)) == [[]] else Tokens(Forced(s)) == Words(Chunks(s))
  {
    var words := Words(Chunks(s));
    if s != [] {
      TokensOfJoined(words[0], words[1..]);
      assert [words[0]] + words[1..] == words;
    }
  }

  lemma {:induction false} SpacedIsPlain(words: seq<string>)
    requires forall w | w in words :: '\r' !in w
    ensures '\r' !in Spaced(words)
  {
    if words != [] { SpacedIsPlain(words[1..]); }
  }

  lemma ForcedIsPlain(s: Bytes)
    requires forall w | w in Words(Chunks(s)) :: '\r' !in w
    ensures '\r' !in Forced(s)
  {
    var words := Words(Chunks(s));
    if words != [] { SpacedIsPlain(words[1..]); }
  }
}
