/** Allowlist entries for addresses: which the webhook admits, what they match,
    and when two of them can have no address in common. */
module AddressPatterns {
  import opened Prelude
  import opened Text
  import Glob

  /** Unseen parts of Go's libraries: lower case and folding outside ASCII, and
      whether net/mail parses a string as just that address. */
  datatype Library = Library(lower: Mapping, fold: Mapping, parsesPlain: string -> bool)

  const WILDCARDS := "*?["

  predicate IsGlob(s: string) { ContainsAny(s, WILDCARDS) }

  function Normal(s: string, lib: Library): string { Lower(TrimSpace(s), lib.lower) }

  /** Exact or glob match, ignoring case; a slash is a plain character. */
  predicate AddressMatches(addr: string, pattern: string, lib: Library) {
    var a, p := Normal(addr, lib), Normal(pattern, lib);
    p == a || (IsGlob(p) && Glob.Matches(Replace(p, '/', '\0'), Replace(a, '/', '\0')))
  }

  // Valid entries.

  predicate LowerAlnum(c: char) { 'a' <= c <= 'z' || '0' <= c <= '9' }

  /** A DNS-1123 subdomain: labels of letters, digits and inner hyphens. */
  predicate IsSubdomain(d: string) {
    && 0 < |d| <= 253 && LowerAlnum(d[0]) && LowerAlnum(d[|d| - 1])
    && forall i | 0 <= i < |d| :: NameByte(d, i)
  }

  /** A dot is only between letters or digits. */
  predicate NameByte(d: string, i: nat)
    requires i < |d|
  {
    && (LowerAlnum(d[i]) || d[i] == '-' || d[i] == '.')
    && (d[i] == '.' ==> 0 < i < |d| - 1 && LowerAlnum(d[i - 1]) && LowerAlnum(d[i + 1]))
  }

  predicate DomainByte(c: char) { LowerAlnum(AsciiLower(c)) || c == '-' }

  /** An ASCII host name. */
  predicate ValidDomain(d: string) { 0 < |d| <= 253 && HostBytes(d) && HostLabels(d) }

  predicate HostBytes(d: string) { forall i | 0 <= i < |d| :: DomainByte(d[i]) || d[i] == '.' }

  predicate HostLabels(d: string) {
    forall i, j | 0 <= i <= j <= |d| && LabelAt(d, i, j) :: 0 < j - i <= 63 && d[i] != '-' && d[j - 1] != '-'
  }

  /** [i, j) is a label of `d`. */
  predicate LabelAt(d: string, i: nat, j: nat) {
    && i <= j <= |d| && '.' !in d[i..j]
    && (i == 0 || d[i - 1] == '.') && (j == |d| || d[j] == '.')
  }

  predicate LocalByte(c: char) {
    !Ascii(c) || LowerAlnum(AsciiLower(c)) || c in "#$&'*+-/=?^_`{|}~."
  }

  /** A dot-atom without routing characters. */
  predicate ValidLocal(local: string) {
    && local != "" && local[0] != '.' && local[|local| - 1] != '.'
    && (forall i | 0 <= i < |local| :: LocalByte(local[i]))
    && forall i | 0 < i < |local| :: !(local[i - 1] == '.' && local[i] == '.')
  }

  /** No routing semantics in the local part, and an ASCII host as domain. */
  predicate ValidMailbox(addr: string) {
    var at := Last(addr, '@');
    0 < at < |addr| - 1 && ValidDomain(addr[at + 1..]) && ValidLocal(addr[..at])
  }

  datatype EntryError = NotPlain | NoForm | WildcardDomain | NotBare | NoLocal | Routing | BadGlob

  function LocalPart(e: string): string { e[..First(e, '@')] }

  function DomainPart(e: string): string { if First(e, '@') < |e| then e[First(e, '@') + 1..] else "" }

  /** What is wrong with an entry, if anything. */
  function AddressEntryError(e: string, lib: Library): Option<EntryError> {
    if !IsGlob(e) then
      if lib.parsesPlain(e) && ValidMailbox(e) then None else Some(NotPlain)
    else
      var local, domain := LocalPart(e), DomainPart(e);
      if First(e, '@') == |e| || '@' in domain then Some(NoForm)
      else if IsGlob(domain) then Some(WildcardDomain)
      else if !IsSubdomain(Lower(domain, lib.lower)) then Some(NotBare)
      else if local == "" then Some(NoLocal)
      else if ContainsAny(local, "%!\"<>() ,;:") then Some(Routing)
      else if Glob.Parse(e, 0).None? then Some(BadGlob)
      else None
  }

  predicate Admitted(e: string, lib: Library) { AddressEntryError(e, lib).None? }

  function DomainOf(addr: string, lib: Library): string {
    var at := Last(addr, '@');
    if at < 0 then "" else Lower(addr[at + 1..], lib.lower)
  }

  predicate EndsWith(s: string, tail: string) { |s| >= |tail| && s[|s| - |tail|..] == tail }

  // The domain is fixed.

  lemma GlobShape(e: string, lib: Library)
    requires IsGlob(e) && Admitted(e, lib)
    ensures var at, d := First(e, '@'), DomainPart(e);
            at < |e| && e == LocalPart(e) + "@" + d && d != "" && '@' !in d && IsSubdomain(Lower(d, lib.lower))
  {
    hide IsSubdomain, Glob.Parse, IsGlob, ValidMailbox, ContainsAny, First, Lower;
    CutAt(e);
    SomeDomain(DomainPart(e), lib);
  }

  lemma CutAt(e: string)
    ensures First(e, '@') < |e| ==> e == LocalPart(e) + "@" + DomainPart(e)
  {
    if First(e, '@') < |e| { Around(e, First(e, '@')); }
  }

  lemma Around(s: string, i: nat)
    requires i < |s|
    ensures s == s[..i] + [s[i]] + s[i + 1..]
  {
  }

  lemma SomeDomain(d: string, lib: Library)
    ensures IsSubdomain(Lower(d, lib.lower)) ==> d != ""
  {
  }

  /** Characters of a bare domain are no spaces and nothing special in a glob. */
  lemma PlainDomain(d: string, lib: Library)
    requires IsSubdomain(Lower(d, lib.lower))
    ensures forall i | 0 <= i < |d| :: !Space(d[i]) && d[i] != '@' && d[i] != '/'
    ensures forall i | 0 <= i < |d| :: Lower(d, lib.lower)[i] !in "*?[\\]@/\0"
  {
    var l := Lower(d, lib.lower);
    forall i | 0 <= i < |d| ensures !Space(d[i]) && d[i] != '@' && d[i] != '/' && l[i] !in "*?[\\]@/\0" {
      assert NameByte(l, i);
      assert l[i] == LowerChar(d[i], lib.lower);
    }
  }

  /** The pattern an admitted glob is matched as: something, then its domain. */
  lemma NormalGlob(e: string, lib: Library)
    requires IsGlob(e) && Admitted(e, lib)
    ensures var p := Normal(e, lib); EndsWith(p, "@" + Lower(DomainPart(e), lib.lower))
  {
    hide Admitted, IsGlob, LocalPart, DomainPart, IsSubdomain, TrimLeft, TrimSpace;
    var local, d := LocalPart(e), DomainPart(e);
    GlobShape(e, lib);
    PlainDomain(d, lib);
    var rest := "@" + d;
    assert e == local + rest;
    assert rest[|rest| - 1] == d[|d| - 1];
    TrimBefore(local, rest);
    LowerTail(TrimLeft(local), rest, lib);
    assert Lower(rest, lib.lower) == "@" + Lower(d, lib.lower);
  }

  lemma LowerTail(front: string, rest: string, lib: Library)
    ensures EndsWith(Lower(front + rest, lib.lower), Lower(rest, lib.lower))
  {
    var all := Lower(front + rest, lib.lower);
    assert all[|front|..] == Lower(rest, lib.lower);
  }

  /** For all globs with classes and escapes and for all strings: what an
      admitted glob matches ends in "@" and exactly its domain. */
  lemma GlobFixesDomain(e: string, addr: string, lib: Library)
    requires IsGlob(e) && Admitted(e, lib) && AddressMatches(addr, e, lib)
    ensures EndsWith(Normal(addr, lib), "@" + Lower(DomainPart(e), lib.lower))
  {
    hide Admitted, IsGlob, Normal, DomainPart, LocalPart, IsSubdomain, Glob.Matches, Lower, Replace;
    NormalGlob(e, lib);
    GlobShape(e, lib);
    PlainDomain(DomainPart(e), lib);
    var a, p, tail := Normal(addr, lib), Normal(e, lib), "@" + Lower(DomainPart(e), lib.lower);
    if p != a { TailOfMatch(p, a, tail); }
  }

  lemma TailOfMatch(p: string, a: string, tail: string)
    requires tail != "" && EndsWith(p, tail) && forall i | 0 <= i < |tail| :: tail[i] !in "*?[\\]/\0"
    requires Glob.Matches(Replace(p, '/', '\0'), Replace(a, '/', '\0'))
    ensures EndsWith(a, tail)
  {
    hide Glob.Matches, Glob.Literal;
    ReplacedTail(p, tail);
    Glob.TailIsMatched(Replace(p, '/', '\0'), |p| - |tail|, Replace(a, '/', '\0'));
    UnreplacedTail(a, tail);
  }

  lemma ReplacedTail(s: string, tail: string)
    requires EndsWith(s, tail) && forall i | 0 <= i < |tail| :: tail[i] !in "*?[\\]/"
    ensures Replace(s, '/', '\0')[|s| - |tail|..] == tail && Glob.Literal(Replace(s, '/', '\0')[|s| - |tail|..])
  {
    var at, r := |s| - |tail|, Replace(s, '/', '\0');
    forall i | 0 <= i < |tail| ensures r[at..][i] == tail[i] {
      assert s[at..][i] == s[at + i];
    }
    assert r[at..] == tail;
  }

  lemma UnreplacedTail(s: string, tail: string)
    requires EndsWith(Replace(s, '/', '\0'), tail) && forall i | 0 <= i < |tail| :: tail[i] != '\0'
    ensures EndsWith(s, tail)
  {
    var at, r := |s| - |tail|, Replace(s, '/', '\0');
    forall i | 0 <= i < |tail| ensures s[at..][i] == tail[i] {
      assert r[at..][i] == r[at + i];
    }
    assert s[at..] == tail;
  }
}
