/** Host names, mailboxes and allowlist entries, said of the parts between their
    dots and at their "@". */
module AddressForms {
  import opened Prelude
  import opened Text
  import opened AddressPatterns
  import Glob

  /** The parts between the dots, empty ones included. */
  function Parts(s: string): (parts: seq<string>)
    ensures parts != []
  {
    if s == "" then [""]
    else if s[0] == '.' then [""] + Parts(s[1..])
    else
      var rest := Parts(s[1..]);
      [[s[0]] + rest[0]] + rest[1..]
  }

  lemma PartsStep(s: string)
    requires s != ""
    ensures s[0] == '.' ==> Parts(s)[0] == "" && Parts(s)[1..] == Parts(s[1..])
    ensures s[0] != '.' ==> Parts(s)[0] == [s[0]] + Parts(s[1..])[0] && Parts(s)[1..] == Parts(s[1..])[1..]
  {
  }

  /** A stretch between dots is a part: the first one, if nothing is before it. */
  lemma {:induction false} FirstLabel(s: string, j: nat)
    requires LabelAt(s, 0, j)
    ensures Parts(s)[0] == s[..j]
  {
    hide Parts;
    if s == "" {
      NoParts();
    } else {
      PartsStep(s);
      if j > 0 {
        assert s[0..j][0] == s[0];
        FirstShifted(s, j);
        FirstLabel(s[1..], j - 1);
        assert s[..j] == [s[0]] + s[1..][..j - 1];
      }
    }
  }

  lemma NoParts()
    ensures Parts("") == [""]
  {
  }

  lemma {:induction false} LaterLabel(s: string, i: nat, j: nat)
    requires LabelAt(s, i, j) && i > 0
    ensures s[i..j] in Parts(s)[1..]
    decreases |s|
  {
    hide Parts;
    PartsStep(s);
    Shifted(s, i, j);
    if i == 1 {
      FirstLabel(s[1..], j - 1);
      assert s[1..][..j - 1] == s[i..j];
    } else {
      LaterLabel(s[1..], i - 1, j - 1);
    }
  }

  lemma Shifted(s: string, i: nat, j: nat)
    requires s != "" && 0 < i <= j <= |s|
    ensures s[1..][i - 1..j - 1] == s[i..j]
    ensures LabelAt(s, i, j) ==> LabelAt(s[1..], i - 1, j - 1)
    ensures LabelAt(s[1..], i - 1, j - 1) && (i == 1 ==> s[0] == '.') ==> LabelAt(s, i, j)
  {
  }

  lemma FirstShifted(s: string, j: nat)
    requires s != "" && s[0] != '.' && 0 < j <= |s|
    ensures LabelAt(s, 0, j) <==> LabelAt(s[1..], 0, j - 1)
  {
    assert s[0..j] == [s[0]] + s[1..][0..j - 1];
  }

  /** And every part is such a stretch. */
  lemma {:induction false} PartIsLabel(s: string, k: nat) returns (i: nat, j: nat)
    requires k < |Parts(s)|
    ensures LabelAt(s, i, j) && s[i..j] == Parts(s)[k] && (k == 0 <==> i == 0)
    decreases |s|
  {
    hide Parts, LabelAt;
    if s == "" {
      i, j := 0, 0;
      NoParts();
      EmptyLabel(s);
    } else {
      PartsStep(s);
      if s[0] == '.' && k == 0 {
        i, j := 0, 0;
        EmptyLabel(s);
      } else if s[0] == '.' {
        assert Parts(s)[k] == Parts(s)[1..][k - 1];
        i, j := PartIsLabel(s[1..], k - 1);
        i, j := LaterPart(s, i, j);
      } else if k == 0 {
        i, j := PartIsLabel(s[1..], 0);
        j := FirstPart(s, j);
      } else {
        assert Parts(s)[k] == Parts(s)[1..][k - 1] == Parts(s[1..])[k];
        i, j := PartIsLabel(s[1..], k);
        i, j := LaterPart(s, i, j);
      }
    }
  }

  lemma EmptyLabel(s: string)
    requires s == "" || s[0] == '.'
    ensures LabelAt(s, 0, 0) && s[0..0] == ""
  {
  }

  lemma LaterPart(s: string, i: nat, j: nat) returns (i': nat, j': nat)
    requires s != "" && LabelAt(s[1..], i, j) && (i == 0 ==> s[0] == '.')
    ensures i' == i + 1 && j' == j + 1 && LabelAt(s, i', j') && i <= j <= |s[1..]| && s[i'..j'] == s[1..][i..j]
  {
    i', j' := i + 1, j + 1;
    Shifted(s, i', j');
  }

  lemma FirstPart(s: string, j: nat) returns (j': nat)
    requires s != "" && s[0] != '.' && LabelAt(s[1..], 0, j)
    ensures LabelAt(s, 0, j') && j <= |s[1..]| && j' <= |s| && s[0..j'] == [s[0]] + s[1..][0..j]
  {
    j' := j + 1;
    FirstShifted(s, j');
    assert s[0..j'] == [s[0]] + s[1..][0..j];
  }

  ghost predicate EachLabel(s: string, good: string -> bool) {
    forall i: nat, j: nat | LabelAt(s, i, j) :: good(s[i..j])
  }

  /** So what is true of all the one is true of all the other. */
  lemma PartsAreLabels(s: string, good: string -> bool)
    ensures (forall p | p in Parts(s) :: good(p)) <==> EachLabel(s, good)
  {
    hide Parts;
    if forall p | p in Parts(s) :: good(p) {
      forall i: nat, j: nat | LabelAt(s, i, j) ensures good(s[i..j]) {
        if i == 0 { FirstLabel(s, j); } else { LaterLabel(s, i, j); }
      }
    }
    if EachLabel(s, good) {
      forall p | p in Parts(s) ensures good(p) {
        var k :| 0 <= k < |Parts(s)| && Parts(s)[k] == p;
        var i, j := PartIsLabel(s, k);
      }
    }
  }

  lemma StartOf(s: string, k: nat) returns (i: nat)
    requires k <= |s|
    ensures i <= k && '.' !in s[i..k] && (i == 0 || s[i - 1] == '.')
  {
    i := k;
    while i > 0 && s[i - 1] != '.'
      invariant i <= k && '.' !in s[i..k]
    {
      assert s[i - 1..k] == [s[i - 1]] + s[i..k];
      i := i - 1;
    }
  }

  lemma EndFrom(s: string, k: nat) returns (j: nat)
    requires k <= |s|
    ensures k <= j <= |s| && '.' !in s[k..j] && (j == |s| || s[j] == '.')
  {
    j := k;
    while j < |s| && s[j] != '.'
      invariant k <= j <= |s| && '.' !in s[k..j]
    {
      assert s[k..j + 1] == s[k..j] + [s[j]];
      j := j + 1;
    }
  }

  /** Every place that is no dot is in such a stretch, and so is every gap. */
  lemma Around(s: string, k: nat) returns (i: nat, j: nat)
    requires k <= |s|
    ensures LabelAt(s, i, j) && i <= k <= j
  {
    i := StartOf(s, k);
    j := EndFrom(s, k);
    assert s[i..j] == s[i..k] + s[k..j];
  }

  // Host names.

  predicate HostLabel(l: string) {
    0 < |l| <= 63 && l[0] != '-' && l[|l| - 1] != '-' && forall i | 0 <= i < |l| :: DomainByte(l[i])
  }

  lemma BytesAreLabels(d: string)
    ensures ValidDomain(d) <==>
            0 < |d| <= 253 && EachLabel(d, l => HostLabel(l))
  {
    hide DomainByte;
    if ValidDomain(d) {
      forall i: nat, j: nat | LabelAt(d, i, j) ensures HostLabel(d[i..j]) {
        assert forall k | i <= k < j :: d[k] == d[i..j][k - i] && d[k] in d[i..j];
      }
    }
    if 0 < |d| <= 253 && EachLabel(d, l => HostLabel(l)) {
      forall k | 0 <= k < |d| ensures DomainByte(d[k]) || d[k] == '.' {
        var i, j := Around(d, k);
        if k < j { assert d[i..j][k - i] == d[k]; } else { assert d[k] == '.'; }
      }
      forall i, j | 0 <= i <= j <= |d| && LabelAt(d, i, j) ensures 0 < j - i <= 63 && d[i] != '-' && d[j - 1] != '-' {
        assert HostLabel(d[i..j]);
        assert d[i..j][0] == d[i] && d[i..j][j - i - 1] == d[j - 1];
      }
    }
  }

  /** A domain is valid exactly if it is short enough and its labels are: letters,
      digits and inner hyphens, 1 to 63 of them. */
  lemma DomainExactly(d: string)
    ensures ValidDomain(d) <==> 0 < |d| <= 253 && forall l | l in Parts(d) :: HostLabel(l)
  {
    hide ValidDomain, HostLabel, EachLabel, Parts;
    BytesAreLabels(d);
    PartsAreLabels(d, l => HostLabel(l));
  }

  /** The check of a domain, label by label. */
  method ValidateDomain(d: string) returns (ok: bool)
    ensures ok == ValidDomain(d)
  {
    DomainExactly(d);
    hide ValidDomain;
    if |d| == 0 || |d| > 253 { return false; }
    var labels := Parts(d);
    for n := 0 to |labels|
      invariant forall m | 0 <= m < n :: HostLabel(labels[m])
    {
      var l := labels[n];
      assert l in labels;
      if |l| == 0 || |l| > 63 { return false; }
      if l[0] == '-' || l[|l| - 1] == '-' { return false; }
      for i := 0 to |l|
        invariant forall k | 0 <= k < i :: DomainByte(l[k])
      {
        if !DomainByte(l[i]) { return false; }
      }
    }
    return true;
  }

  /** A label of the names that Kubernetes takes for domains. */
  predicate NameLabel(l: string) {
    && l != "" && LowerAlnum(l[0]) && LowerAlnum(l[|l| - 1])
    && forall i | 0 <= i < |l| :: LowerAlnum(l[i]) || l[i] == '-'
  }

  lemma NamesAreLabels(d: string)
    ensures IsSubdomain(d) <==> 0 < |d| <= 253 && EachLabel(d, l => NameLabel(l))
  {
    if IsSubdomain(d) {
      forall i: nat, j: nat | LabelAt(d, i, j) ensures NameLabel(d[i..j]) {
        NameHasLabel(d, i, j);
      }
    }
    if 0 < |d| <= 253 && EachLabel(d, l => NameLabel(l)) { LabelsAreNames(d); }
    hide IsSubdomain, NameLabel;
  }

  lemma NoEmptyLabel(d: string, i: nat, j: nat)
    requires IsSubdomain(d) && LabelAt(d, i, j)
    ensures i < j && LowerAlnum(d[i]) && LowerAlnum(d[j - 1])
  {
    if i > 0 { DotBetween(d, i - 1); }
    if j < |d| { DotBetween(d, j); }
  }

  lemma DotBetween(d: string, k: nat)
    requires IsSubdomain(d) && k < |d| && d[k] == '.'
    ensures 0 < k < |d| - 1 && LowerAlnum(d[k - 1]) && LowerAlnum(d[k + 1])
  {
    assert NameByte(d, k);
  }

  lemma NameHasLabel(d: string, i: nat, j: nat)
    requires IsSubdomain(d) && LabelAt(d, i, j)
    ensures NameLabel(d[i..j])
  {
    hide LowerAlnum;
    NoEmptyLabel(d, i, j);
    assert d[i..j][0] == d[i] && d[i..j][j - i - 1] == d[j - 1];
    forall k | 0 <= k < j - i ensures LowerAlnum(d[i..j][k]) || d[i..j][k] == '-' {
      assert NameByte(d, i + k) && d[i..j][k] == d[i + k] && d[i + k] in d[i..j];
    }
  }

  lemma LabelsAreNames(d: string)
    requires 0 < |d| <= 253 && EachLabel(d, l => NameLabel(l))
    ensures IsSubdomain(d)
  {
    hide LowerAlnum, EachLabel;
    EndOf(d, 0);
    EndOf(d, |d|);
    forall k | 0 <= k < |d|
      ensures NameByte(d, k)
    {
      EndOf(d, k);
      EndOf(d, k + 1);
    }
    assert LowerAlnum(d[0]);
    assert LowerAlnum(d[|d| - 1]);
  }

  /** What the label at a place says of the characters there. */
  lemma EndOf(d: string, k: nat)
    requires k <= |d| && EachLabel(d, l => NameLabel(l))
    ensures k < |d| && d[k] != '.' ==> LowerAlnum(d[k]) || d[k] == '-'
    ensures k == 0 || d[k - 1] == '.' ==> k < |d| && LowerAlnum(d[k])
    ensures k == |d| || d[k] == '.' ==> 0 < k && LowerAlnum(d[k - 1])
  {
    hide LowerAlnum;
    var i, j := Around(d, k);
    assert NameLabel(d[i..j]);
    assert d[i..j][0] == d[i] && d[i..j][j - i - 1] == d[j - 1];
    if k < j { assert d[i..j][k - i] == d[k]; }
    assert forall m | i <= m < j :: d[m] == d[i..j][m - i] && d[m] in d[i..j];
  }

  lemma SubdomainExactly(d: string)
    ensures IsSubdomain(d) <==> 0 < |d| <= 253 && forall l | l in Parts(d) :: NameLabel(l)
  {
    hide IsSubdomain, NameLabel, EachLabel, Parts;
    NamesAreLabels(d);
    PartsAreLabels(d, l => NameLabel(l));
  }

  // Mailboxes.

  /** Characters of an atom that no mail server routes by: letters, digits, these, and
      all outside ASCII. */
  predicate AtomByte(c: char) { !Ascii(c) || LowerAlnum(AsciiLower(c)) || c in "#$&'*+-/=?^_`{|}~" }

  predicate Atom(a: string) { a != "" && forall i | 0 <= i < |a| :: AtomByte(a[i]) }

  lemma AtomBytes(c: char)
    ensures LocalByte(c) <==> AtomByte(c) || c == '.'
    ensures AtomByte(c) ==> c != '.' && c != '@' && c != '%' && c != '!' && c != '"' && c != ' '
  {
  }

  lemma LocalsAreLabels(s: string)
    ensures ValidLocal(s) <==> EachLabel(s, l => Atom(l))
  {
    hide LocalByte, AtomByte;
    if ValidLocal(s) {
      forall i: nat, j: nat | LabelAt(s, i, j) ensures Atom(s[i..j]) {
        LocalHasAtom(s, i, j);
      }
    }
    if EachLabel(s, l => Atom(l)) { AtomsAreLocal(s); }
  }

  lemma LocalHasAtom(s: string, i: nat, j: nat)
    requires ValidLocal(s) && LabelAt(s, i, j)
    ensures Atom(s[i..j])
  {
    hide LocalByte, AtomByte;
    assert i > 0 ==> s[i - 1] == '.';
    assert j < |s| ==> s[j] == '.';
    assert i < j;
    forall k | 0 <= k < j - i ensures AtomByte(s[i..j][k]) {
      assert s[i..j][k] == s[i + k] && s[i + k] in s[i..j];
      AtomBytes(s[i + k]);
    }
  }

  lemma AtomsAreLocal(s: string)
    requires EachLabel(s, l => Atom(l))
    ensures ValidLocal(s)
  {
    hide LocalByte, AtomByte, EachLabel;
    EndOfAtom(s, 0);
    EndOfAtom(s, |s|);
    forall k | 0 <= k < |s| ensures LocalByte(s[k]) && (k > 0 ==> !(s[k - 1] == '.' && s[k] == '.')) {
      EndOfAtom(s, k);
      AtomBytes(s[k]);
    }
  }

  lemma EndOfAtom(s: string, k: nat)
    requires k <= |s| && EachLabel(s, l => Atom(l))
    ensures k < |s| && s[k] != '.' ==> AtomByte(s[k])
    ensures k == 0 || s[k - 1] == '.' ==> k < |s| && s[k] != '.'
    ensures k == |s| || s[k] == '.' ==> 0 < k && s[k - 1] != '.'
  {
    hide AtomByte;
    var i, j := Around(s, k);
    assert Atom(s[i..j]);
    if k < j { assert s[i..j][k - i] == s[k] && s[k] in s[i..j]; }
    if i < k { assert s[i..j][k - 1 - i] == s[k - 1] && s[k - 1] in s[i..j]; }
  }

  lemma LocalExactly(s: string)
    ensures ValidLocal(s) <==> forall a | a in Parts(s) :: Atom(a)
  {
    hide ValidLocal, Atom, EachLabel, Parts;
    LocalsAreLabels(s);
    PartsAreLabels(s, l => Atom(l));
  }

  /** Atoms between dots, an "@", and labels between dots. */
  predicate IsMailbox(local: string, domain: string) {
    && (forall a | a in Parts(local) :: Atom(a))
    && 0 < |domain| <= 253 && (forall l | l in Parts(domain) :: HostLabel(l))
  }

  ghost predicate HasForm(addr: string) {
    exists local, domain :: addr == local + "@" + domain && IsMailbox(local, domain)
  }

  lemma PartsOfMailbox(local: string, domain: string)
    ensures IsMailbox(local, domain) <==> ValidLocal(local) && ValidDomain(domain)
  {
    hide ValidLocal, ValidDomain, Parts, HostLabel, Atom;
    LocalExactly(local);
    DomainExactly(domain);
  }

  lemma ValidHasForm(addr: string)
    requires ValidMailbox(addr)
    ensures HasForm(addr) && forall c | c in addr[..Last(addr, '@')] :: c !in ROUTING
  {
    hide ValidLocal, ValidDomain, IsMailbox, Last;
    var at := Last(addr, '@');
    var local, domain := addr[..at], addr[at + 1..];
    PartsOfMailbox(local, domain);
    assert addr == local + "@" + domain;
    NoRouting(local);
  }

  lemma FormIsValid(local: string, domain: string)
    requires IsMailbox(local, domain)
    ensures ValidMailbox(local + "@" + domain)
  {
    hide ValidLocal, ValidDomain, IsMailbox, Last;
    PartsOfMailbox(local, domain);
    NoAtInHost(domain);
    LastAt(local, domain);
    SomeLocal(local);
    SomeHost(domain);
  }

  lemma SomeHost(d: string)
    requires ValidDomain(d)
    ensures d != ""
  {
  }

  /** Characters that other mail servers route or quote by. */
  const ROUTING := "@%!\" ,;:()<>"

  /** A mailbox is valid exactly if it has this form; its local part then has none of
      those characters. */
  lemma MailboxExactly(addr: string)
    ensures ValidMailbox(addr) <==> HasForm(addr)
    ensures ValidMailbox(addr) ==> forall c | c in addr[..Last(addr, '@')] :: c !in ROUTING
  {
    if ValidMailbox(addr) { ValidHasForm(addr); }
    hide ValidMailbox, IsMailbox, Last;
    if HasForm(addr) {
      var local, domain :| addr == local + "@" + domain && IsMailbox(local, domain);
      FormIsValid(local, domain);
    }
  }

  lemma SomeLocal(local: string)
    ensures ValidLocal(local) ==> local != ""
  {
  }

  lemma NoRouting(local: string)
    requires ValidLocal(local)
    ensures forall c | c in local :: c !in ROUTING
  {
    hide LocalByte;
    forall c | c in local ensures c !in ROUTING {
      var i :| 0 <= i < |local| && local[i] == c;
      NoRoute(local[i]);
    }
  }

  lemma NoRoute(c: char)
    requires LocalByte(c)
    ensures c !in ROUTING
  {
  }

  lemma NoAtInHost(d: string)
    requires ValidDomain(d)
    ensures '@' !in d
  {
    forall i | 0 <= i < |d| ensures d[i] != '@' {
      assert DomainByte(d[i]) || d[i] == '.';
    }
  }

  lemma LastAt(local: string, domain: string)
    requires '@' !in domain
    ensures var addr := local + "@" + domain;
            Last(addr, '@') == |local| && addr[..|local|] == local && addr[|local| + 1..] == domain
  {
    var addr := local + "@" + domain;
    hide Last;
    var at := Last(addr, '@');
    assert addr[|local|] == '@' && addr[|local| + 1..] == domain && addr[..|local|] == local;
    assert forall k | 0 <= k < |domain| :: addr[|local| + 1 + k] == domain[k];
    assert forall k | at < k < |addr| :: addr[k] in addr[at + 1..];
  }

  // Entries.

  /** The form of a pattern: something before one "@", without the characters that
      others route or quote by, and a bare domain after it. */
  predicate IsPattern(local: string, domain: string, lib: Library) {
    && local != "" && '@' !in local && (forall c | c in local :: c !in "%!\"<>() ,;:")
    && (forall c | c in domain :: c !in "@*?[")
    && 0 < |domain| <= 253 && (forall l | l in Parts(Lower(domain, lib.lower)) :: NameLabel(l))
  }

  ghost predicate HasPattern(e: string, lib: Library) {
    exists local, domain :: e == local + "@" + domain && IsPattern(local, domain, lib)
  }

  lemma PatternChars(local: string, domain: string)
    ensures (forall c | c in domain :: c !in "@*?[") <==> '@' !in domain && !IsGlob(domain)
    ensures (forall c | c in local :: c !in "%!\"<>() ,;:") <==> !ContainsAny(local, "%!\"<>() ,;:")
  {
    AnyOf(domain, "@*?[");
    assert forall c: char :: c in "@*?[" <==> c == '@' || c in "*?[";
  }

  lemma AnyOf(s: string, chars: string)
    ensures (forall c | c in s :: c !in chars) <==> !ContainsAny(s, chars)
  {
  }

  lemma NoAtInLocal(e: string)
    ensures '@' !in LocalPart(e)
  {
    hide First;
  }

  lemma DomainIsName(domain: string, lib: Library)
    ensures IsSubdomain(Lower(domain, lib.lower)) <==>
            0 < |domain| <= 253 && forall l | l in Parts(Lower(domain, lib.lower)) :: NameLabel(l)
  {
    hide IsSubdomain, Parts, NameLabel, LowerChar;
    SubdomainExactly(Lower(domain, lib.lower));
  }

  lemma PatternParts(e: string, lib: Library)
    requires IsGlob(e)
    ensures Admitted(e, lib) <==>
            First(e, '@') < |e| && IsPattern(LocalPart(e), DomainPart(e), lib) && Glob.Parse(e, 0).Some?
  {
    hide ValidMailbox, Glob.Parse, Parts, NameLabel, IsSubdomain, Lower;
    hide First, LocalPart, DomainPart, IsGlob, ContainsAny;
    PatternChars(LocalPart(e), DomainPart(e));
    NoAtInLocal(e);
    DomainIsName(DomainPart(e), lib);
  }

  /** An entry is admitted exactly if it is the plain address of a valid mailbox, or a
      glob of that form. */
  lemma EntryExactly(e: string, lib: Library)
    ensures Admitted(e, lib) <==>
            if forall c | c in e :: c !in "*?[" then lib.parsesPlain(e) && ValidMailbox(e)
            else Glob.Parse(e, 0).Some? && HasPattern(e, lib)
  {
    if IsGlob(e) {
      PatternParts(e, lib);
      CutAt(e);
      hide Admitted, IsPattern, Glob.Parse, LocalPart, DomainPart, First;
      if HasPattern(e, lib) {
        var local, domain :| e == local + "@" + domain && IsPattern(local, domain, lib);
        NoAtBefore(local, domain, lib);
        FirstAt(local, domain);
      }
    }
    hide ValidMailbox, Glob.Parse, IsSubdomain, IsPattern;
  }

  lemma NoAtBefore(local: string, domain: string, lib: Library)
    requires IsPattern(local, domain, lib)
    ensures '@' !in local
  {
  }

  lemma FirstAt(local: string, domain: string)
    requires '@' !in local
    ensures var e := local + "@" + domain; LocalPart(e) == local && DomainPart(e) == domain && First(e, '@') == |local|
  {
    var e := local + "@" + domain;
    hide First;
    assert e[|local|] == '@' && e[|local| + 1..] == domain && e[..|local|] == local;
    assert forall k | 0 <= k < |local| :: e[k] == local[k];
  }
}
