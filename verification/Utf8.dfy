/** The UTF-8 encoding of Unicode scalar values, section 3 of RFC 3629. */
module Utf8 {
  import opened Sequences

  predicate Scalar(x: int) { 0 <= x < 0xD800 || 0xE000 <= x < 0x11_0000 }

  /** A byte that continues an encoding, from six bits. */
  function More(x: int): Byte { (0x80 + x % 0x40) as char }

  function Encode(x: int): (s: Bytes)
    requires Scalar(x)
    ensures 1 <= |s| <= 4
  {
    if x < 0x80 then [x as char]
    else if x < 0x800 then [(0xC0 + x / 0x40) as char, More(x)]
    else if x < 0x1_0000 then [(0xE0 + x / 0x1000) as char, More(x / 0x40), More(x)]
    else [(0xF0 + x / 0x4_0000) as char, More(x / 0x1000), More(x / 0x40), More(x)]
  }

  /** Six more bits, and the byte they give. */
  lemma SixBits(x: int, b: int)
    requires 0 <= b < 0x40
    ensures (x * 0x40 + b) / 0x40 == x && More(x * 0x40 + b) == (0x80 + b) as char
  {
  }

  lemma TwoBytes(a: int, b: int)
    requires 2 <= a < 0x20 && 0 <= b < 0x40
    ensures var x := a * 0x40 + b; Scalar(x) && Encode(x) == [(0xC0 + a) as char, (0x80 + b) as char]
  {
    SixBits(a, b);
    hide More;
  }

  lemma ThreeBytes(a: int, b: int, c: int)
    requires 0 <= a < 0x10 && 0 <= b < 0x40 && 0 <= c < 0x40 && (a == 0 ==> b >= 0x20) && (a == 0xD ==> b < 0x20)
    ensures var x := (a * 0x40 + b) * 0x40 + c;
            Scalar(x) && Encode(x) == [(0xE0 + a) as char, (0x80 + b) as char, (0x80 + c) as char]
  {
    SixBits(a, b);
    SixBits(a * 0x40 + b, c);
    hide More;
    var x := (a * 0x40 + b) * 0x40 + c;
    assert x / 0x1000 == a;
  }

  lemma FourBytes(a: int, b: int, c: int, d: int)
    requires 0 <= a <= 4 && 0 <= b < 0x40 && 0 <= c < 0x40 && 0 <= d < 0x40
    requires (a == 0 ==> b >= 0x10) && (a == 4 ==> b < 0x10)
    ensures var x := ((a * 0x40 + b) * 0x40 + c) * 0x40 + d;
            && Scalar(x)
            && Encode(x) == [(0xF0 + a) as char, (0x80 + b) as char, (0x80 + c) as char, (0x80 + d) as char]
  {
    SixBits(a, b);
    SixBits(a * 0x40 + b, c);
    SixBits((a * 0x40 + b) * 0x40 + c, d);
    hide More;
    var x := ((a * 0x40 + b) * 0x40 + c) * 0x40 + d;
    assert x / 0x1000 == a * 0x40 + b && x / 0x4_0000 == a;
  }

  /** The first byte tells the length; with two bytes it is at least C2. */
  lemma Leads(x: int)
    requires Scalar(x)
    ensures var s := Encode(x);
            && (|s| == 1 ==> s[0] as int < 0x80)
            && (|s| == 2 ==> 0xC2 <= s[0] as int <= 0xDF)
            && (|s| == 3 ==> 0xE0 <= s[0] as int <= 0xEF) && (|s| == 4 ==> 0xF0 <= s[0] as int <= 0xF4)
            && forall i | 0 < i < |s| :: 0x80 <= s[i] as int <= 0xBF
  {
  }

  /** The second byte rules out long forms, surrogates and what is too large. */
  lemma SecondOfThree(x: int)
    requires 0x800 <= x < 0x1_0000 && Scalar(x)
    ensures var s := Encode(x);
            (s[0] as int == 0xE0 ==> s[1] as int >= 0xA0) && (s[0] as int == 0xED ==> s[1] as int <= 0x9F)
  {
    assert x / 0x1000 == 0 ==> x / 0x40 % 0x40 == x / 0x40;
    assert x / 0x1000 == 0xD ==> x / 0x40 % 0x40 == x / 0x40 - 0x340;
  }

  lemma SecondOfFour(x: int)
    requires 0x1_0000 <= x && Scalar(x)
    ensures var s := Encode(x);
            (s[0] as int == 0xF0 ==> s[1] as int >= 0x90) && (s[0] as int == 0xF4 ==> s[1] as int <= 0x8F)
  {
    assert x / 0x4_0000 == 0 ==> x / 0x1000 % 0x40 == x / 0x1000;
    assert x / 0x4_0000 == 4 ==> x / 0x1000 % 0x40 == x / 0x1000 - 0x100;
  }

  lemma Seconds(x: int)
    requires Scalar(x)
    ensures var s := Encode(x);
            && (|s| == 3 && s[0] as int == 0xE0 ==> s[1] as int >= 0xA0)
            && (|s| == 3 && s[0] as int == 0xED ==> s[1] as int <= 0x9F)
            && (|s| == 4 && s[0] as int == 0xF0 ==> s[1] as int >= 0x90)
            && (|s| == 4 && s[0] as int == 0xF4 ==> s[1] as int <= 0x8F)
  {
    Lengths(x);
    hide Encode;
    if 0x800 <= x < 0x1_0000 { SecondOfThree(x); }
    if 0x1_0000 <= x { SecondOfFour(x); }
  }

  lemma Lengths(x: int)
    requires Scalar(x)
    ensures |Encode(x)| == 3 <==> 0x800 <= x < 0x1_0000
    ensures |Encode(x)| == 4 <==> 0x1_0000 <= x
  {
  }
}
