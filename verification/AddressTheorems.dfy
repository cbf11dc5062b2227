/** What allowlist entries promise: the domain of everything they match, when
    two of them are disjoint, and where an allowed message can go. */
module AddressTheorems {
  import opened Text
  import opened AddressPatterns

  /** The one domain an admitted entry stands for. */
  function EntryDomain(e: string, lib: Library): string {
    if IsGlob(e) then Lower(DomainPart(e), lib.lower) else DomainOf(e, lib)
  }

  lemma TrimShrinks(s: string)
    ensures forall c | c in TrimSpace(s) :: c in s
  {
    TrimLeftShrinks(s);
    TrimRightShrinks(TrimLeft(s));
  }

  lemma {:induction false} TrimLeftShrinks(s: string)
    ensures forall c | c in TrimLeft(s) :: c in s
  {
    if s != [] && Space(s[0]) { TrimLeftShrinks(s[1..]); }
  }

  lemma {:induction false} TrimRightShrinks(s: string)
    ensures forall c | c in TrimRight(s) :: c in s
  {
    if s != [] && Space(s[|s| - 1]) { TrimRightShrinks(s[..|s| - 1]); }
  }

  /** Lower-casing makes no wildcards. */
  lemma PlainStaysPlain(e: string, lib: Library)
    requires !IsGlob(e)
    ensures !IsGlob(Normal(e, lib))
  {
    TrimShrinks(e);
    var t, n := TrimSpace(e), Normal(e, lib);
    forall c | c in n ensures c !in WILDCARDS {
      var i :| 0 <= i < |n| && n[i] == c;
      assert n[i] == LowerChar(t[i], lib.lower) && t[i] in e;
    }
  }

  /** A plain entry matches exactly what it spells, up to case and outer space. */
  lemma PlainMatchesItself(addr: string, e: string, lib: Library)
    requires !IsGlob(e)
    ensures AddressMatches(addr, e, lib) <==> Normal(addr, lib) == Normal(e, lib)
  {
    PlainStaysPlain(e, lib);
    hide IsGlob, Normal, Glob.Matches;
  }

  /** The last "@" splits a valid mailbox, and nothing of its domain is trimmed. */
  lemma MailboxEnds(addr: string, lib: Library)
    requires ValidMailbox(addr)
    ensures EndsWith(Normal(addr, lib), "@" + DomainOf(addr, lib)) && '@' !in DomainOf(addr, lib)
  {
    hide ValidDomain, ValidLocal, Last, Normal, EndsWith, Lower;
    var at := Last(addr, '@');
    assert addr == addr[..at] + ("@" + addr[at + 1..]);
    HostEnds(addr[..at], addr[at + 1..], lib);
  }

  lemma HostEnds(local: string, d: string, lib: Library)
    requires ValidDomain(d)
    ensures EndsWith(Normal(local + ("@" + d), lib), "@" + Lower(d, lib.lower)) && '@' !in Lower(d, lib.lower)
  {
    assert d != "" && !Space('@');
    hide ValidDomain, TrimSpace, TrimLeft, Space, Lower, LowerChar, EndsWith;
    HostIsPlain(d);
    var rest := "@" + d;
    assert rest[|rest| - 1] == d[|d| - 1];
    TrimBefore(local, rest);
    LowerTail(TrimLeft(local), rest, lib);
    LowerAt(d, lib);
    NoAt(d, lib);
  }

  lemma LowerAt(d: string, lib: Library)
    ensures Lower("@" + d, lib.lower) == "@" + Lower(d, lib.lower)
  {
  }

  lemma NoAt(d: string, lib: Library)
    requires forall i | 0 <= i < |d| :: d[i] != '@'
    ensures '@' !in Lower(d, lib.lower)
  {
  }

  lemma HostIsPlain(d: string)
    requires ValidDomain(d)
    ensures forall i | 0 <= i < |d| :: Ascii(d[i]) && !Space(d[i]) && d[i] != '@'
  {
    hide HostLabels, DomainByte, Space;
    forall i | 0 <= i < |d| ensures Ascii(d[i]) && !Space(d[i]) && d[i] != '@' {
      HostByte(d[i]);
    }
  }

  lemma HostByte(c: char)
    requires DomainByte(c) || c == '.'
    ensures Ascii(c) && !Space(c) && c != '@'
  {
  }

  lemma TailAt(s: string, x: string)
    requires EndsWith(s, "@" + x)
    ensures s[|s| - |x| - 1] == '@' && s[|s| - |x|..] == x
    ensures forall k | |s| - |x| <= k < |s| :: s[k] == x[k - (|s| - |x|)]
  {
    var i, t := |s| - |x| - 1, "@" + x;
    assert s[i] == t[0] && s[i..][1..] == t[1..] == x && s[i..][1..] == s[i + 1..];
  }

  lemma SameTail(s: string, x: string, y: string)
    requires EndsWith(s, "@" + x) && EndsWith(s, "@" + y) && '@' !in x && '@' !in y
    ensures x == y
  {
    TailAt(s, x);
    TailAt(s, y);
    assert |x| == |y|;
  }

  /** Every entry the webhook admits matches, among valid mailboxes, only those
      of exactly its domain. */
  lemma AdmittedFixesDomain(e: string, addr: string, lib: Library)
    requires Admitted(e, lib) && ValidMailbox(addr) && AddressMatches(addr, e, lib)
    ensures DomainOf(addr, lib) == EntryDomain(e, lib)
  {
    MailboxEnds(addr, lib);
    if IsGlob(e) {
      GlobFixesDomain(e, addr, lib);
      GlobShape(e, lib);
      PlainDomain(DomainPart(e), lib);
    } else {
      PlainMatchesItself(addr, e, lib);
      PlainIsMailbox(e, lib);
      MailboxEnds(e, lib);
    }
    hide *;
    SameTail(Normal(addr, lib), DomainOf(addr, lib), EntryDomain(e, lib));
  }

  lemma PlainIsMailbox(e: string, lib: Library)
    requires Admitted(e, lib) && !IsGlob(e)
    ensures ValidMailbox(e)
  {
  }

  // Two entries with nothing in common.

  /** Whether the warning code takes two entries to share an address. */
  predicate MayShare(e: string, b: string, lib: Library) {
    if !IsGlob(e) then AddressMatches(e, b, lib)
    else if !IsGlob(b) then AddressMatches(b, e, lib)
    else !Admitted(b, lib) || EqualFold(TrimSpace(DomainPart(e)), TrimSpace(DomainPart(b)), lib.fold)
  }

  predicate NeverAllowed(e: string, backend: seq<string>, lib: Library) {
    (IsGlob(e) ==> Admitted(e, lib)) && forall b | b in backend :: !MayShare(e, b, lib)
  }

  method SenderNeverAllowed(e: string, backend: seq<string>, lib: Library) returns (never: bool)
    ensures never == NeverAllowed(e, backend, lib)
  {
    hide IsGlob, AddressMatches, AddressEntryError, EqualFold, TrimSpace, DomainPart;
    var glob := IsGlob(e);
    if glob && AddressEntryError(e, lib).Some? { return false; }
    for i := 0 to |backend|
      invariant forall b | b in backend[..i] :: !MayShare(e, b, lib)
    {
      var b := backend[i];
      assert MayShare(e, b, lib) ==> !NeverAllowed(e, backend, lib);
      if !glob {
        if AddressMatches(e, b, lib) { return false; }
      } else if !IsGlob(b) {
        if AddressMatches(b, e, lib) { return false; }
      } else if AddressEntryError(b, lib).Some? {
        return false;
      } else if EqualFold(TrimSpace(DomainPart(e)), TrimSpace(DomainPart(b)), lib.fold) {
        return false;
      }
    }
    return true;
  }

  ghost predicate Share(e: string, b: string, lib: Library) {
    exists addr :: AddressMatches(addr, e, lib) && AddressMatches(addr, b, lib)
  }

  /** The same domain in lower case, but a dotted capital I on one side only. */
  predicate DottedApart(e: string, b: string, lib: Library) {
    var d, f := DomainPart(e), DomainPart(b);
    && Lower(d, lib.lower) == Lower(f, lib.lower)
    && exists i | 0 <= i < |d| && i < |f| :: (d[i] == DOTTED_I) != (f[i] == DOTTED_I)
  }

  lemma TrimmedDomain(e: string, lib: Library)
    requires IsGlob(e) && Admitted(e, lib)
    ensures TrimSpace(DomainPart(e)) == DomainPart(e)
  {
    hide Admitted, IsGlob, DomainPart, LocalPart, IsSubdomain;
    GlobShape(e, lib);
    var d := DomainPart(e);
    PlainDomain(d, lib);
    assert [] + d == d;
    TrimBefore([], d);
  }

  /** About a plain sender it is exact: never, if and only if no entry matches it. A
      plain entry is compared with a glob the other way round. */
  lemma PlainNeverExactly(e: string, backend: seq<string>, lib: Library)
    ensures !IsGlob(e) ==> (NeverAllowed(e, backend, lib) <==> forall b | b in backend :: !AddressMatches(e, b, lib))
    ensures IsGlob(e) && Admitted(e, lib) && (forall b | b in backend :: !IsGlob(b)) ==>
              (NeverAllowed(e, backend, lib) <==> forall b | b in backend :: !AddressMatches(b, e, lib))
  {
    hide IsGlob, AddressMatches, Admitted;
  }

  /** Two admitted globs are taken to share an address exactly when their
      domains agree in lower case and in their dotted capital Is. */
  lemma GlobsMayShare(e: string, b: string, lib: Library)
    requires IsGlob(e) && IsGlob(b) && Admitted(e, lib) && Admitted(b, lib)
    ensures MayShare(e, b, lib) <==>
            EntryDomain(e, lib) == EntryDomain(b, lib) && !DottedApart(e, b, lib)
  {
    hide Admitted, IsGlob, DomainPart, IsSubdomain, Folded, TrimSpace;
    TrimmedDomain(e, lib);
    TrimmedDomain(b, lib);
    GlobShape(e, lib);
    GlobShape(b, lib);
    var d, f := DomainPart(e), DomainPart(b);
    LowersToAscii(d, lib);
    LowersToAscii(f, lib);
    if |d| == |f| { FoldsLikeLower(d, f, lib.lower, lib.fold); }
  }

  lemma LowersToAscii(d: string, lib: Library)
    requires IsSubdomain(Lower(d, lib.lower))
    ensures forall i | 0 <= i < |d| :: Ascii(LowerChar(d[i], lib.lower))
  {
    var l := Lower(d, lib.lower);
    forall i | 0 <= i < |d| ensures Ascii(LowerChar(d[i], lib.lower)) {
      assert NameByte(l, i);
    }
  }

  /** For all strings: if the warning says never, then no address matches the
      policy's entry and one of the backend's, unless two globs spell one
      domain with and without a dotted capital I. */
  lemma NeverIsSound(e: string, backend: seq<string>, b: string, addr: string, lib: Library)
    requires NeverAllowed(e, backend, lib) && b in backend
    requires AddressMatches(addr, e, lib) && AddressMatches(addr, b, lib)
    ensures IsGlob(e) && IsGlob(b) && DottedApart(e, b, lib)
  {
    hide Admitted, IsGlob, Normal, DottedApart, Glob.Matches;
    assert !MayShare(e, b, lib);
    if !IsGlob(e) {
      PlainMatchesItself(addr, e, lib);
    } else if !IsGlob(b) {
      PlainMatchesItself(addr, b, lib);
    } else {
      SharedDomain(e, b, addr, lib);
      GlobsMayShare(e, b, lib);
    }
  }

  lemma SharedDomain(e: string, b: string, addr: string, lib: Library)
    requires IsGlob(e) && IsGlob(b) && Admitted(e, lib) && Admitted(b, lib)
    requires AddressMatches(addr, e, lib) && AddressMatches(addr, b, lib)
    ensures EntryDomain(e, lib) == EntryDomain(b, lib)
  {
    hide Admitted, IsGlob, AddressMatches, DomainPart, IsSubdomain, Lower;
    GlobFixesDomain(e, addr, lib);
    GlobFixesDomain(b, addr, lib);
    GlobShape(e, lib);
    GlobShape(b, lib);
    PlainDomain(DomainPart(e), lib);
    PlainDomain(DomainPart(b), lib);
    SameTail(Normal(addr, lib), Lower(DomainPart(e), lib.lower), Lower(DomainPart(b), lib.lower));
  }

  /** The warning is wrong about two admitted globs that share an address
      exactly when they are apart by a dotted capital I. */
  lemma NeverWrongExactly(e: string, b: string, lib: Library)
    requires IsGlob(e) && IsGlob(b) && Admitted(e, lib) && Admitted(b, lib) && Share(e, b, lib)
    ensures NeverAllowed(e, [b], lib) <==> DottedApart(e, b, lib)
  {
    var addr :| AddressMatches(addr, e, lib) && AddressMatches(addr, b, lib);
    hide Admitted, IsGlob, AddressMatches, DottedApart, MayShare;
    SharedDomain(e, b, addr, lib);
    GlobsMayShare(e, b, lib);
  }

  // The case that fails: whole-domain globs.

  function WholeDomain(d: string): string { "*@" + d }

  lemma WholeDomainParts(d: string)
    ensures IsGlob(WholeDomain(d)) && LocalPart(WholeDomain(d)) == "*" && DomainPart(WholeDomain(d)) == d
  {
    var e := WholeDomain(d);
    assert '*' in e && e[1..][0] == '@';
    assert First(e, '@') == 1 + First(e[1..], '@') == 1;
    assert e[..1] == "*" && e[2..] == d;
  }

  /** A whole-domain glob is admitted for every bare domain. */
  lemma WholeDomainAdmitted(d: string, lib: Library)
    requires IsSubdomain(Lower(d, lib.lower))
    ensures Admitted(WholeDomain(d), lib)
  {
    hide IsSubdomain, IsGlob, Glob.Literal, First, LocalPart, DomainPart, Lower, WholeDomain;
    var e := WholeDomain(d);
    WholeDomainParts(d);
    HasAt(d);
    PlainDomain(d, lib);
    PlainChars(d, lib);
    WholeDomainParses(d);
    assert !ContainsAny("*", "%!\"<>() ,;:");
  }

  lemma HasAt(d: string)
    ensures First(WholeDomain(d), '@') < |WholeDomain(d)|
  {
    assert WholeDomain(d)[1..][0] == '@';
    assert First(WholeDomain(d), '@') == 1 + First(WholeDomain(d)[1..], '@') == 1;
  }

  lemma WholeDomainParses(d: string)
    requires Glob.Literal("@" + d)
    ensures Glob.Parse(WholeDomain(d), 0).Some?
  {
    var e := WholeDomain(d);
    assert e[1..] == "@" + d;
    Glob.LiteralParses(e, 1);
    hide Glob.Literal;
    assert Glob.ParseTerm(e, 0) == Glob.Next(Glob.Star, 1);
  }

  lemma PlainChars(d: string, lib: Library)
    requires IsSubdomain(Lower(d, lib.lower))
    ensures !IsGlob(d) && Glob.Literal("@" + d)
  {
    forall i | 0 <= i < |d| ensures d[i] !in "*?[\\]" {
      PlainDomain(d, lib);
      assert Lower(d, lib.lower)[i] == LowerChar(d[i], lib.lower);
    }
  }

  lemma WholeDomainMatches(d: string, lib: Library)
    requires IsSubdomain(Lower(d, lib.lower))
    ensures AddressMatches("x@" + Lower(d, lib.lower), WholeDomain(d), lib)
  {
    hide IsSubdomain, Normal, Glob.Matches, Glob.Literal, IsGlob, Lower, LowerChar;
    var l := Lower(d, lib.lower);
    LowerTwice(d, lib);
    NormalOf("x", l, lib);
    NormalOf("*", d, lib);
    PlainDomain(d, lib);
    PlainChars(l, lib);
    assert "x@" + l == "x" + ("@" + l) && WholeDomain(d) == "*" + ("@" + d);
    StarMatches(l, lib);
    assert WholeDomain(l) == "*" + ("@" + l);
  }

  lemma StarMatches(l: string, lib: Library)
    requires Glob.Literal("@" + l) && forall i | 0 <= i < |l| :: l[i] != '/'
    ensures Glob.Matches(Replace("*" + ("@" + l), '/', '\0'), Replace("x" + ("@" + l), '/', '\0'))
    ensures IsGlob("*" + ("@" + l))
  {
    hide Glob.Matches;
    var tail := "@" + l;
    assert Replace("x" + tail, '/', '\0') == "x" + tail && Replace("*" + tail, '/', '\0') == "*" + tail;
    Glob.StarMatches(tail, "x");
    WholeDomainParts(l);
    assert WholeDomain(l) == "*" + tail;
  }

  lemma LowerTwice(d: string, lib: Library)
    requires IsSubdomain(Lower(d, lib.lower))
    ensures Lower(Lower(d, lib.lower), lib.lower) == Lower(d, lib.lower)
  {
    var l := Lower(d, lib.lower);
    forall i | 0 <= i < |d| ensures LowerChar(l[i], lib.lower) == l[i] {
      assert NameByte(l, i);
    }
  }

  lemma NormalOf(local: string, d: string, lib: Library)
    requires IsSubdomain(Lower(d, lib.lower)) && |local| == 1 && local[0] in "x*"
    ensures Normal(local + ("@" + d), lib) == local + ("@" + Lower(d, lib.lower))
  {
    var rest := "@" + d;
    PlainDomain(d, lib);
    assert rest[|rest| - 1] == d[|d| - 1];
    TrimBefore(local, rest);
    hide IsSubdomain, TrimSpace;
    assert TrimLeft(local) == local;
  }

  /** Two whole-domain globs share an address exactly when their domains agree
      in lower case; the warning then errs exactly on a dotted capital I. */
  lemma WholeDomainsExactly(d: string, f: string, lib: Library)
    requires IsSubdomain(Lower(d, lib.lower)) && IsSubdomain(Lower(f, lib.lower))
    ensures var e, b := WholeDomain(d), WholeDomain(f);
            && (Share(e, b, lib) <==> Lower(d, lib.lower) == Lower(f, lib.lower))
            && (NeverAllowed(e, [b], lib) && Share(e, b, lib) <==> DottedApart(e, b, lib))
  {
    var e, b := WholeDomain(d), WholeDomain(f);
    hide IsSubdomain, Lower, WholeDomain, DomainPart, IsGlob, Admitted, AddressMatches;
    WholeDomainParts(d);
    WholeDomainParts(f);
    WholeDomainAdmitted(d, lib);
    WholeDomainAdmitted(f, lib);
    if Lower(d, lib.lower) == Lower(f, lib.lower) {
      WholeDomainMatches(d, lib);
      WholeDomainMatches(f, lib);
    }
    if Share(e, b, lib) {
      var addr :| AddressMatches(addr, e, lib) && AddressMatches(addr, b, lib);
      SharedDomain(e, b, addr, lib);
      NeverWrongExactly(e, b, lib);
    }
  }

  /** An input on which the warning is wrong. */
  lemma DottedIGoesWrong(lib: Library)
    ensures var e, b := WholeDomain([DOTTED_I] + ".de"), WholeDomain("i.de");
            && NeverAllowed(e, [b], lib)
            && AddressMatches("x@i.de", e, lib) && AddressMatches("x@i.de", b, lib)
  {
    hide NeverAllowed, AddressMatches, WholeDomain, Share, IsSubdomain, DomainPart;
    var d, f := [DOTTED_I] + ".de", "i.de";
    LowersToIDe(lib);
    WholeDomainsExactly(d, f, lib);
    WholeDomainMatches(d, lib);
    WholeDomainMatches(f, lib);
    WholeDomainParts(d);
    WholeDomainParts(f);
    assert d[0] == DOTTED_I && f[0] != DOTTED_I;
    assert "x@" + "i.de" == "x@i.de";
  }

  lemma LowersToIDe(lib: Library)
    ensures Lower([DOTTED_I] + ".de", lib.lower) == "i.de" == Lower("i.de", lib.lower) && IsSubdomain("i.de")
  {
    hide Lower;
    LowerCons(DOTTED_I, ".de", lib);
    LowerCons('i', ".de", lib);
    LowerDe(lib);
    assert ['i'] + ".de" == "i.de";
    BareIDe();
  }

  lemma LowerCons(c: char, s: string, lib: Library)
    ensures Lower([c] + s, lib.lower) == [LowerChar(c, lib.lower)] + Lower(s, lib.lower)
  {
    hide LowerChar;
  }

  lemma LowerDe(lib: Library)
    ensures Lower(".de", lib.lower) == ".de"
  {
  }

  lemma BareIDe()
    ensures IsSubdomain("i.de")
  {
  }
}
