/** Bytes, and facts about slices that several proofs share. */
module Sequences {
  /** A byte is a character below 256. */
  type Byte = c: char | c as int < 256 witness 'a'
  type Bytes = seq<Byte>

  lemma Slices<T>(s: seq<T>, n: nat, e: nat)
    requires n <= e <= |s|
    ensures s[..e][..n] == s[..n] && s[..e][n..] == s[n..][..e - n] && s[n..][e - n..] == s[e..]
    ensures s[..e] == s[..n] + s[n..][..e - n] && s == s[..n] + s[n..]
  {
  }

  lemma Assoc<T>(a: seq<T>, b: seq<T>, c: seq<T>)
    ensures a + (b + c) == a + b + c
  {
  }

  lemma HeadOf<T>(s: seq<T>, n: nat)
    requires 0 < n <= |s|
    ensures s[..n] == [s[0]] + s[1..n]
  {
  }

  lemma Glue<T>(a: seq<T>, b: seq<T>)
    ensures (a + b)[..|a|] == a && (a + b)[|a|..] == b
  {
  }

  lemma Cancel<T>(p: seq<T>, a: seq<T>, b: seq<T>)
    ensures p + a == p + b <==> a == b
  {
    Glue(p, a);
    Glue(p, b);
  }
}
