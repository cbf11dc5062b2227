/** The policy decision on one message, and what an allowed message can reach. */
module PolicyEngine {
  import opened Prelude
  import opened Text
  import opened AddressPatterns
  import opened AddressTheorems

  datatype Restrictions = Restrictions(
    blocked: seq<string>, allowedDomains: seq<string>, allowedRecipients: seq<string>)

  /** 0 or less is no limit. */
  datatype MessageLimits = MessageLimits(maxSizeBytes: int, maxRecipients: int)

  datatype Policy = Policy(
    limits: Option<MessageLimits>, senders: Option<seq<string>>, recipients: Option<Restrictions>)

  datatype Message = Message(
    from: string, envelopeFrom: string, sender: string, recipients: seq<string>, replyTo: seq<string>, sizeBytes: int)

  datatype Denial =
    | NoPolicy | TooLarge | TooManyRecipients | SenderNotAllowed(who: string) | RecipientBlocked(who: string)

  predicate FoldsToOne(domain: string, list: seq<string>, lib: Library) {
    exists d | d in list :: EqualFold(d, domain, lib.fold)
  }

  predicate MatchesOne(addr: string, list: seq<string>, lib: Library) {
    exists e | e in list :: AddressMatches(addr, e, lib)
  }

  /** Blocked domains win; with both allowlists empty the rest passes. */
  predicate RecipientAllowed(addr: string, r: Option<Restrictions>, lib: Library) {
    r.Some? ==>
      var Restrictions(blocked, domains, entries) := r.value;
      && !FoldsToOne(DomainOf(addr, lib), blocked, lib)
      && (|| (domains == [] && entries == [])
          || FoldsToOne(DomainOf(addr, lib), domains, lib)
          || MatchesOne(addr, entries, lib))
  }

  function Senders(m: Message): seq<string> {
    [m.from] + (if m.envelopeFrom != "" then [m.envelopeFrom] else []) + (if m.sender != "" then [m.sender] else [])
  }

  /** The first address that matches no entry, if any. */
  function Unmatched(addrs: seq<string>, list: seq<string>, lib: Library): (r: Option<string>)
    ensures r.None? <==> forall a | a in addrs :: MatchesOne(a, list, lib)
  {
    if addrs == [] then None
    else if !MatchesOne(addrs[0], list, lib) then Some(addrs[0])
    else
      assert forall a | a in addrs :: a == addrs[0] || a in addrs[1..];
      Unmatched(addrs[1..], list, lib)
  }

  /** The first address that is no valid mailbox or not allowed, if any. */
  function Refused(addrs: seq<string>, r: Option<Restrictions>, lib: Library): (a: Option<string>)
    ensures a.None? <==> forall x | x in addrs :: ValidMailbox(x) && RecipientAllowed(x, r, lib)
  {
    if addrs == [] then None
    else if !ValidMailbox(addrs[0]) || !RecipientAllowed(addrs[0], r, lib) then Some(addrs[0])
    else
      assert forall x | x in addrs :: x == addrs[0] || x in addrs[1..];
      Refused(addrs[1..], r, lib)
  }

  /** The count of recipients is compared as a 32-bit number. */
  function Int32(n: int): (r: int)
    ensures -0x8000_0000 <= r < 0x8000_0000 && (n - r) % 0x1_0000_0000 == 0
  {
    (n + 0x8000_0000) % 0x1_0000_0000 - 0x8000_0000
  }

  function Evaluate(p: Option<Policy>, m: Message, lib: Library): Option<Denial> {
    match p
    case None => Some(NoPolicy)
    case Some(Policy(limits, senders, recipients)) =>
      if limits.Some? && 0 < limits.value.maxSizeBytes < m.sizeBytes then Some(TooLarge)
      else if limits.Some? && 0 < limits.value.maxRecipients < Int32(|m.recipients|) then Some(TooManyRecipients)
      else if senders.Some? && Unmatched(Senders(m), senders.value, lib).Some? then
        Some(SenderNotAllowed(Unmatched(Senders(m), senders.value, lib).value))
      else if Refused(m.recipients, recipients, lib).Some? then
        Some(RecipientBlocked(Refused(m.recipients, recipients, lib).value))
      else if Refused(m.replyTo, recipients, lib).Some? then
        Some(RecipientBlocked(Refused(m.replyTo, recipients, lib).value))
      else None
  }

  /** Some entry of the list matches the address. */
  predicate Listed(addr: string, list: Option<seq<string>>, lib: Library) {
    list.Some? ==> exists e | e in list.value :: AddressMatches(addr, e, lib)
  }

  predicate WithinSize(p: Policy, m: Message) {
    p.limits.Some? && p.limits.value.maxSizeBytes > 0 ==> m.sizeBytes <= p.limits.value.maxSizeBytes
  }

  predicate WithinCount(p: Policy, m: Message) {
    p.limits.Some? && p.limits.value.maxRecipients > 0 ==> Int32(|m.recipients|) <= p.limits.value.maxRecipients
  }

  /** Every sender address the message has is listed, if there is a list; an empty
      one lists nobody. */
  predicate SendersListed(list: Option<seq<string>>, m: Message, lib: Library) {
    && Listed(m.from, list, lib)
    && (m.envelopeFrom != "" ==> Listed(m.envelopeFrom, list, lib))
    && (m.sender != "" ==> Listed(m.sender, list, lib))
  }

  predicate Deliverable(addr: string, p: Policy, lib: Library) {
    ValidMailbox(addr) && RecipientAllowed(addr, p.recipients, lib)
  }

  lemma SendersAreThose(list: seq<string>, m: Message, lib: Library)
    ensures Unmatched(Senders(m), list, lib).None? <==> SendersListed(Some(list), m, lib)
  {
    hide AddressMatches;
    assert m.from in Senders(m);
    assert m.envelopeFrom != "" ==> m.envelopeFrom in Senders(m);
    assert m.sender != "" ==> m.sender in Senders(m);
    assert forall a | a in Senders(m) ::
        a == m.from || (m.envelopeFrom != "" && a == m.envelopeFrom) || (m.sender != "" && a == m.sender);
  }

  /** A message is allowed exactly if it is within the caps given, all its senders
      are listed, and all recipients and reply addresses are valid mailboxes that
      the restrictions allow. */
  lemma AllowedExactly(p: Policy, m: Message, lib: Library)
    ensures Evaluate(Some(p), m, lib).None? <==>
            && WithinSize(p, m) && WithinCount(p, m) && SendersListed(p.senders, m, lib)
            && forall a | a in m.recipients + m.replyTo :: Deliverable(a, p, lib)
  {
    hide AddressMatches, ValidMailbox, RecipientAllowed, Senders, SendersListed;
    if p.senders.Some? { SendersAreThose(p.senders.value, m, lib); } else { AnySender(m, lib); }
    assert forall a :: a in m.recipients + m.replyTo <==> a in m.recipients || a in m.replyTo;
  }

  lemma AnySender(m: Message, lib: Library)
    ensures SendersListed(None, m, lib)
  {
  }

  /** The first of the addresses that fails. */
  ghost predicate FirstOf(who: string, addrs: seq<string>, fails: string -> bool) {
    exists i | 0 <= i < |addrs| ::
      addrs[i] == who && fails(who) && forall j | 0 <= j < i :: !fails(addrs[j])
  }

  lemma FirstLater(who: string, addrs: seq<string>, fails: string -> bool)
    requires addrs != [] && !fails(addrs[0])
    ensures FirstOf(who, addrs, fails) <==> FirstOf(who, addrs[1..], fails)
  {
    if FirstOf(who, addrs, fails) {
      var i :| 0 <= i < |addrs| && addrs[i] == who && fails(who) && forall j | 0 <= j < i :: !fails(addrs[j]);
      assert addrs[1..][i - 1] == who;
    }
    if FirstOf(who, addrs[1..], fails) {
      var i :| 0 <= i < |addrs[1..]| && addrs[1..][i] == who && fails(who) &&
               forall j | 0 <= j < i :: !fails(addrs[1..][j]);
      assert addrs[i + 1] == who;
      forall j | 0 <= j < i + 1 ensures !fails(addrs[j]) {
        if j > 0 { assert addrs[1..][j - 1] == addrs[j]; }
      }
    }
  }

  lemma FirstHere(who: string, addrs: seq<string>, fails: string -> bool)
    requires addrs != [] && fails(addrs[0])
    ensures FirstOf(who, addrs, fails) <==> addrs[0] == who
  {
    if addrs[0] == who { assert addrs[0] == who && fails(who); }
  }

  lemma {:induction false} UnmatchedIsFirst(addrs: seq<string>, list: seq<string>, lib: Library, who: string)
    ensures Unmatched(addrs, list, lib) == Some(who) <==> FirstOf(who, addrs, a => !Listed(a, Some(list), lib))
  {
    hide AddressMatches, FirstOf;
    var fails := a => !Listed(a, Some(list), lib);
    if addrs == [] {
      NoFirst(who, fails);
    } else if fails(addrs[0]) {
      FirstHere(who, addrs, fails);
    } else {
      FirstLater(who, addrs, fails);
      UnmatchedIsFirst(addrs[1..], list, lib, who);
    }
  }

  lemma NoFirst(who: string, fails: string -> bool)
    ensures !FirstOf(who, [], fails)
  {
  }

  lemma {:induction false} RefusedIsFirst(addrs: seq<string>, p: Policy, lib: Library, who: string)
    ensures Refused(addrs, p.recipients, lib) == Some(who) <==> FirstOf(who, addrs, a => !Deliverable(a, p, lib))
  {
    hide ValidMailbox, RecipientAllowed, FirstOf;
    var fails := a => !Deliverable(a, p, lib);
    if addrs == [] {
      NoFirst(who, fails);
    } else if fails(addrs[0]) {
      FirstHere(who, addrs, fails);
    } else {
      FirstLater(who, addrs, fails);
      RefusedIsFirst(addrs[1..], p, lib, who);
    }
  }

  lemma {:induction false} RefusedInOrder(a: seq<string>, b: seq<string>, r: Option<Restrictions>, lib: Library)
    ensures Refused(a + b, r, lib) == if Refused(a, r, lib).Some? then Refused(a, r, lib) else Refused(b, r, lib)
  {
    hide ValidMailbox, RecipientAllowed;
    if a == [] {
      assert a + b == b;
    } else {
      assert (a + b)[0] == a[0] && (a + b)[1..] == a[1..] + b;
      RefusedInOrder(a[1..], b, r, lib);
    }
  }

  /** Every denial by its exact condition: no policy, the size, the recipients'
      number, the first sender that is not listed, and the first recipient or then
      reply address that is not deliverable, in this order. */
  lemma DeniedExactly(policy: Option<Policy>, m: Message, lib: Library, who: string)
    ensures var d := Evaluate(policy, m, lib);
            && (d == Some(NoPolicy) <==> policy.None?)
            && (policy.Some? ==>
                  var p := policy.value;
                  && (d == Some(TooLarge) <==> !WithinSize(p, m))
                  && (d == Some(TooManyRecipients) <==> WithinSize(p, m) && !WithinCount(p, m))
                  && (d == Some(SenderNotAllowed(who)) <==>
                      && WithinSize(p, m) && WithinCount(p, m)
                      && FirstOf(who, Senders(m), a => !Listed(a, p.senders, lib)))
                  && (d == Some(RecipientBlocked(who)) <==>
                      && WithinSize(p, m) && WithinCount(p, m) && SendersListed(p.senders, m, lib)
                      && FirstOf(who, m.recipients + m.replyTo, a => !Deliverable(a, p, lib))))
  {
    if policy.Some? {
      var p := policy.value;
      hide AddressMatches, ValidMailbox, RecipientAllowed, Senders, SendersListed, FirstOf, Unmatched, Refused;
      if p.senders.Some? {
        SendersAreThose(p.senders.value, m, lib);
        UnmatchedIsFirst(Senders(m), p.senders.value, lib, who);
        assert p.senders == Some(p.senders.value);
      } else {
        AnySender(m, lib);
        NoneFails(who, Senders(m), p.senders, lib);
      }
      RefusedInOrder(m.recipients, m.replyTo, p.recipients, lib);
      RefusedIsFirst(m.recipients + m.replyTo, p, lib, who);
    }
  }

  lemma NoneFails(who: string, addrs: seq<string>, list: Option<seq<string>>, lib: Library)
    requires list.None?
    ensures !FirstOf(who, addrs, a => !Listed(a, list, lib))
  {
  }

  /** A domain list entry the webhook admits. */
  predicate DomainAdmitted(d: string, lib: Library) { !ContainsAny(d, "@*?[") && IsSubdomain(Lower(d, lib.lower)) }

  predicate RestrictionsAdmitted(r: Restrictions, lib: Library) {
    && (forall d | d in r.blocked :: DomainAdmitted(d, lib))
    && (forall d | d in r.allowedDomains :: DomainAdmitted(d, lib))
    && (forall e | e in r.allowedRecipients :: Admitted(e, lib))
  }

  /** The domains a policy names. */
  function Reach(r: Restrictions, lib: Library): set<string> {
    (set d | d in r.allowedDomains :: Lower(d, lib.lower)) + (set e | e in r.allowedRecipients :: EntryDomain(e, lib))
  }

  lemma MailboxHost(addr: string, lib: Library)
    requires ValidMailbox(addr)
    ensures var x := DomainOf(addr, lib); Lower(x, lib.lower) == x && forall i | 0 <= i < |x| :: Ascii(x[i])
  {
    hide ValidDomain, ValidLocal, Last;
    var d := addr[Last(addr, '@') + 1..];
    HostIsPlain(d);
  }

  /** A domain list entry covers a recipient exactly when it spells its domain,
      whatever the case, without a dotted capital I. */
  lemma DomainCovers(d: string, addr: string, lib: Library)
    requires DomainAdmitted(d, lib) && ValidMailbox(addr)
    ensures EqualFold(d, DomainOf(addr, lib), lib.fold) <==>
            Lower(d, lib.lower) == DomainOf(addr, lib) && DOTTED_I !in d
  {
    hide ValidMailbox, DomainOf, IsSubdomain, ContainsAny, Folded;
    var x := DomainOf(addr, lib);
    MailboxHost(addr, lib);
    LowersToAscii(d, lib);
    if |d| == |x| { FoldsLikeLower(d, x, lib.lower, lib.fold); }
  }

  /** Some entry spells the domain, without a dotted capital I. */
  predicate Spells(list: seq<string>, domain: string, lib: Library) {
    exists d | d in list :: Lower(d, lib.lower) == domain && DOTTED_I !in d
  }

  /** Restrictions decide exactly: without any every mailbox passes, and else a
      valid one if no blocked entry spells its domain and an allowed one does, or
      an address entry matches it, or neither is given. */
  lemma RestrictionsDecide(addr: string, r: Restrictions, lib: Library)
    requires ValidMailbox(addr) && RestrictionsAdmitted(r, lib)
    ensures RecipientAllowed(addr, None, lib)
    ensures RecipientAllowed(addr, Some(r), lib) <==>
            && !Spells(r.blocked, DomainOf(addr, lib), lib)
            && (|| (r.allowedDomains == [] && r.allowedRecipients == [])
                || Spells(r.allowedDomains, DomainOf(addr, lib), lib)
                || exists e | e in r.allowedRecipients :: AddressMatches(addr, e, lib))
  {
    hide ValidMailbox, DomainOf, DomainAdmitted, EqualFold, Lower, AddressMatches;
    ListSpells(addr, r.blocked, lib);
    ListSpells(addr, r.allowedDomains, lib);
  }

  lemma ListSpells(addr: string, list: seq<string>, lib: Library)
    requires ValidMailbox(addr) && forall d | d in list :: DomainAdmitted(d, lib)
    ensures FoldsToOne(DomainOf(addr, lib), list, lib) <==> Spells(list, DomainOf(addr, lib), lib)
  {
    hide ValidMailbox, DomainOf, DomainAdmitted, EqualFold, Lower;
    forall d | d in list
      ensures EqualFold(d, DomainOf(addr, lib), lib.fold) <==>
              Lower(d, lib.lower) == DomainOf(addr, lib) && DOTTED_I !in d
    {
      DomainCovers(d, addr, lib);
    }
  }

  /** A valid mailbox that passes restrictions the webhook admits is of a domain
      they name, if they name any, and of none they block. */
  lemma RecipientConfined(addr: string, r: Restrictions, lib: Library)
    requires ValidMailbox(addr) && RestrictionsAdmitted(r, lib) && RecipientAllowed(addr, Some(r), lib)
    ensures r.allowedDomains != [] || r.allowedRecipients != [] ==> DomainOf(addr, lib) in Reach(r, lib)
    ensures forall d | d in r.blocked && DOTTED_I !in d :: DomainOf(addr, lib) != Lower(d, lib.lower)
  {
    hide ValidMailbox, DomainOf, DomainAdmitted, Admitted, EqualFold, AddressMatches, EntryDomain, Lower;
    forall d | d in r.blocked && DOTTED_I !in d ensures DomainOf(addr, lib) != Lower(d, lib.lower) {
      DomainCovers(d, addr, lib);
    }
    if FoldsToOne(DomainOf(addr, lib), r.allowedDomains, lib) {
      var d :| d in r.allowedDomains && EqualFold(d, DomainOf(addr, lib), lib.fold);
      DomainCovers(d, addr, lib);
    } else if r.allowedDomains != [] || r.allowedRecipients != [] {
      var e :| e in r.allowedRecipients && AddressMatches(addr, e, lib);
      AdmittedFixesDomain(e, addr, lib);
    }
  }

  /** The policy names the domains it allows. */
  predicate Names(p: Policy) {
    p.recipients.Some? && (p.recipients.value.allowedDomains != [] || p.recipients.value.allowedRecipients != [])
  }

  /** The domains the entries of a list stand for, if there is a list. */
  ghost predicate OfListedDomain(a: string, list: Option<seq<string>>, lib: Library) {
    list.Some? ==> exists e | e in list.value :: DomainOf(a, lib) == EntryDomain(e, lib)
  }

  lemma ListedFixesDomain(a: string, list: Option<seq<string>>, lib: Library)
    requires ValidMailbox(a) && Listed(a, list, lib)
    requires list.Some? ==> forall e | e in list.value :: Admitted(e, lib)
    ensures OfListedDomain(a, list, lib)
  {
    hide ValidMailbox, DomainOf, Admitted, AddressMatches, EntryDomain;
    if list.Some? {
      var e :| e in list.value && AddressMatches(a, e, lib);
      AdmittedFixesDomain(e, a, lib);
    }
  }

  /** An allowed message goes and points replies only to valid mailboxes within
      the policy's reach and outside what it blocks, and all its senders that are
      valid mailboxes are of domains that the policy's list stands for, and the
      backend's. */
  lemma AllowedStaysInReach(p: Policy, m: Message, backend: Option<seq<string>>, lib: Library)
    requires p.recipients.Some? ==> RestrictionsAdmitted(p.recipients.value, lib)
    requires p.senders.Some? ==> forall e | e in p.senders.value :: Admitted(e, lib)
    requires backend.Some? ==> forall e | e in backend.value :: Admitted(e, lib)
    requires Evaluate(Some(p), m, lib).None?
    requires backend.Some? ==> Unmatched(Senders(m), backend.value, lib).None?
    ensures forall a | a in m.recipients + m.replyTo ::
              && ValidMailbox(a)
              && (Names(p) ==> DomainOf(a, lib) in Reach(p.recipients.value, lib))
              && (p.recipients.Some? ==>
                    forall d | d in p.recipients.value.blocked && DOTTED_I !in d ::
                        DomainOf(a, lib) != Lower(d, lib.lower))
    ensures forall a | (a == m.from || (a != "" && a in {m.envelopeFrom, m.sender})) && ValidMailbox(a) ::
              OfListedDomain(a, p.senders, lib) && OfListedDomain(a, backend, lib)
  {
    hide ValidMailbox, DomainOf, RestrictionsAdmitted, RecipientAllowed, Reach, Senders, Evaluate, Unmatched;
    hide Admitted, AddressMatches, EntryDomain, OfListedDomain, Lower;
    AllowedExactly(p, m, lib);
    if backend.Some? { SendersAreThose(backend.value, m, lib); } else { AnySender(m, lib); }
    forall a | a in m.recipients + m.replyTo
      ensures ValidMailbox(a)
      ensures Names(p) ==> DomainOf(a, lib) in Reach(p.recipients.value, lib)
      ensures p.recipients.Some? ==>
                forall d | d in p.recipients.value.blocked && DOTTED_I !in d :: DomainOf(a, lib) != Lower(d, lib.lower)
    {
      assert Deliverable(a, p, lib);
      if p.recipients.Some? { RecipientConfined(a, p.recipients.value, lib); }
    }
    forall a | (a == m.from || (a != "" && a in {m.envelopeFrom, m.sender})) && ValidMailbox(a)
      ensures OfListedDomain(a, p.senders, lib) && OfListedDomain(a, backend, lib)
    {
      ListedFixesDomain(a, p.senders, lib);
      ListedFixesDomain(a, backend, lib);
    }
  }

  /** An input on which a block is without effect: the webhook admits a blocked
      domain with a dotted capital I, and it blocks nothing. */
  lemma DottedBlockPasses(lib: Library)
    ensures var r := Restrictions([[DOTTED_I] + ".de"], [], []);
            && RestrictionsAdmitted(r, lib) && ValidMailbox("x@i.de")
            && DomainOf("x@i.de", lib) == Lower(r.blocked[0], lib.lower)
            && RecipientAllowed("x@i.de", Some(r), lib)
  {
    hide ValidMailbox, DomainOf, IsSubdomain, EqualFold, DomainAdmitted, Lower;
    var d := [DOTTED_I] + ".de";
    LowersToIDe(lib);
    DottedAdmitted(lib);
    MailboxIDe(lib);
    assert d[0] == DOTTED_I;
    DomainCovers(d, "x@i.de", lib);
  }

  lemma DottedAdmitted(lib: Library)
    ensures DomainAdmitted([DOTTED_I] + ".de", lib)
  {
    hide Lower, IsSubdomain;
    LowersToIDe(lib);
    assert forall c | c in [DOTTED_I] + ".de" :: c in [DOTTED_I] || c in ".de";
  }

  lemma MailboxIDe(lib: Library)
    ensures ValidMailbox("x@i.de") && DomainOf("x@i.de", lib) == Lower("i.de", lib.lower)
  {
    var addr := "x@i.de";
    var at := Last(addr, '@');
    assert addr[1] == '@' && '@' !in "i.de";
    assert at == 1 by { assert addr[1] in addr[1..]; }
    assert addr[at + 1..] == "i.de" && addr[..at] == "x";
    HostIDe();
    hide ValidDomain, Lower, LowerChar;
  }

  lemma HostIDe()
    ensures ValidDomain("i.de")
  {
    var d := "i.de";
    forall i: nat, j: nat | i <= j <= |d| && LabelAt(d, i, j)
      ensures 0 < j - i <= 63 && d[i] != '-' && d[j - 1] != '-'
    {
      assert i == 0 || i == 2;
      if i == 0 { assert j >= 1; } else { assert j > 2; }
    }
  }
}
