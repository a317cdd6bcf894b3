/** Plus aliases of a primary address, and the way back from an alias to its mailbox. */
module AliasAddress {
  import opened Wrappers
  import opened Text

  const MAX_SUFFIX_LENGTH := 32

  function Local(email: string): string {
    email[..Find(email, '@')]
  }

  function Domain(email: string): string {
    var at := Find(email, '@');
    if at < |email| then email[at + 1..] else ""
  }

  predicate HasBothParts(email: string) {
    Local(email) != "" && Domain(email) != ""
  }

  function BaseLocal(email: string): string {
    Local(email)[..Find(Local(email), '+')]
  }

  /** The address without its plus suffix. */
  function BaseOf(email: string): string {
    BaseLocal(email) + "@" + Domain(email)
  }

  predicate InAlphabet(c: char) {
    'a' <= c <= 'z' || '0' <= c <= '9'
  }

  predicate GoodSuffix(suffix: string) {
    0 < |suffix| <= MAX_SUFFIX_LENGTH && forall i :: 0 <= i < |suffix| ==> InAlphabet(suffix[i])
  }

  function PlusAlias(primary: string, suffix: string): string {
    BaseLocal(Strip(primary)) + "+" + suffix + "@" + Lower(Domain(Strip(primary)))
  }

  datatype AddressKind = PrimaryAddress | AliasOf(base: string)

  datatype ResolveError = Malformed | UnknownAddress

  /** Maps a normalized business address to the primary address of its mailbox. */
  function Resolve(email: string, primaries: set<string>): Result<AddressKind, ResolveError> {
    if !HasBothParts(email) || ' ' in email then Err(Malformed)
    else if email in primaries then Ok(PrimaryAddress)
    else if '+' !in Local(email) then Err(UnknownAddress)
    else
      var plus := Find(Local(email), '+');
      var suffix := Local(email)[plus + 1..];
      if plus == 0 || suffix == "" then Err(UnknownAddress)
      else if exists i :: 0 <= i < |suffix| && !InAlphabet(suffix[i]) then Err(Malformed)
      else if |suffix| > MAX_SUFFIX_LENGTH then Err(Malformed)
      else if BaseOf(email) !in primaries then Err(UnknownAddress)
      else Ok(AliasOf(BaseOf(email)))
  }

  /** The primary address of the mailbox that a business address resolves to. */
  function ResolvedMailbox(email: string, primaries: set<string>): Option<string> {
    match Resolve(email, primaries)
    case Err(_) => None
    case Ok(PrimaryAddress) => Some(email)
    case Ok(AliasOf(base)) => Some(base)
  }

  /** Lower case, trimmed, two parts, no blanks. */
  predicate WellFormed(p: string) {
    Normal(p) && HasBothParts(p) && ' ' !in p
  }

  /** Besides, no plus sign in the local part. */
  predicate PlainPrimary(p: string) {
    WellFormed(p) && '+' !in Local(p)
  }

  lemma PartsOfJoin(local: string, domain: string)
    requires '@' !in local
    ensures Local(local + "@" + domain) == local && Domain(local + "@" + domain) == domain
  {
    hide Find;
    FindInJoin(local, '@', domain);
    assert local + "@" + domain == local + ['@'] + domain;
  }

  lemma PartsOf(p: string)
    requires WellFormed(p)
    ensures p == Local(p) + "@" + Domain(p) && '@' !in Local(p)
    ensures BaseLocal(p) <= Local(p) && '+' !in BaseLocal(p)
    ensures BaseLocal(p) == Local(p) <==> '+' !in Local(p)
    ensures Lower(Domain(p)) == Domain(p)
  {
    hide Find;
    var at := Find(p, '@');
    assert p == p[..at] + [p[at]] + p[at + 1..];
    if '+' !in Local(p) {
      FindIsFirst(Local(p), '+', |Local(p)|);
    }
    var d := Domain(p);
    forall i | 0 <= i < |d| ensures ToLower(d[i]) == d[i] {
      assert d[i] == p[at + 1 + i];
    }
    assert Lower(d) == d;
  }

  /** The base of an address is its own exactly without a plus sign. */
  lemma BaseIsOwnIff(p: string)
    requires WellFormed(p)
    ensures BaseOf(p) == p <==> '+' !in Local(p)
  {
    PartsOf(p);
    hide Normal, Domain, Local, BaseLocal;
    assert |BaseOf(p)| == |BaseLocal(p)| + 1 + |Domain(p)|;
    assert |p| == |Local(p)| + 1 + |Domain(p)|;
  }

  /** The alias of any primary address: its local part up to a plus sign, the suffix, and its domain in lower case. */
  lemma AliasSpelling(p: string, suffix: string)
    requires GoodSuffix(suffix)
    ensures var q, alias := Strip(p), PlusAlias(p, suffix);
            Local(alias) == BaseLocal(q) + "+" + suffix && Domain(alias) == Lower(Domain(q))
  {
    hide Find, Strip, Lower;
    var q := Strip(p);
    var front := BaseLocal(q) + "+" + suffix;
    assert '@' !in Local(q) && BaseLocal(q) <= Local(q);
    assert '@' !in front;
    PartsOfJoin(front, Lower(Domain(q)));
    assert PlusAlias(p, suffix) == front + "@" + Lower(Domain(q));
  }

  lemma AliasParts(p: string, suffix: string)
    requires WellFormed(p) && GoodSuffix(suffix)
    ensures PlusAlias(p, suffix) == BaseLocal(p) + "+" + suffix + "@" + Domain(p)
    ensures Local(PlusAlias(p, suffix)) == BaseLocal(p) + "+" + suffix
    ensures Domain(PlusAlias(p, suffix)) == Domain(p)
    ensures Find(Local(PlusAlias(p, suffix)), '+') == |BaseLocal(p)|
    ensures BaseLocal(PlusAlias(p, suffix)) == BaseLocal(p)
    ensures Local(PlusAlias(p, suffix))[|BaseLocal(p)| + 1..] == suffix
  {
    hide Find, Strip, Lower;
    StripOfTrimmed(p);
    PartsOf(p);
    var front := BaseLocal(p) + "+" + suffix;
    assert '@' !in suffix;
    PartsOfJoin(front, Domain(p));
    FindInJoin(BaseLocal(p), '+', suffix);
    assert front == BaseLocal(p) + ['+'] + suffix;
  }

  lemma InfixKeepsNormal(p: string, l: string, suffix: string, d: string)
    requires l <= p && |l| + |d| <= |p| && p[|p| - |d|..] == d && d != "" && GoodSuffix(suffix)
    requires Normal(p) && ' ' !in p
    ensures Normal(l + "+" + suffix + "@" + d) && ' ' !in l + "+" + suffix + "@" + d
  {
    var a := l + "+" + suffix + "@" + d;
    var tail := |l| + 2 + |suffix|;
    forall i | 0 <= i < |a| ensures ToLower(a[i]) == a[i] && a[i] != ' ' {
      if i < |l| {
        assert a[i] == p[i];
      } else if tail <= i {
        assert a[i] == p[|p| - |d| + (i - tail)];
      }
    }
    assert a[|a| - 1] == p[|p| - 1] && a[0] == if l == "" then '+' else p[0];
  }

  lemma AliasIsNormal(p: string, suffix: string)
    requires WellFormed(p) && GoodSuffix(suffix)
    ensures WellFormed(PlusAlias(p, suffix))
  {
    hide Find, Local, Domain, PlusAlias, Normal;
    AliasParts(p, suffix);
    PartsOf(p);
    assert |BaseLocal(p)| <= |Local(p)|;
    InfixKeepsNormal(p, BaseLocal(p), suffix, Domain(p));
  }

  /** An alias has the base of its primary; this is the primary itself exactly if it is plain. */
  lemma AliasHasItsBase(p: string, suffix: string)
    requires WellFormed(p) && GoodSuffix(suffix)
    ensures BaseOf(PlusAlias(p, suffix)) == BaseOf(p)
    ensures BaseOf(PlusAlias(p, suffix)) == p <==> '+' !in Local(p)
    ensures '+' !in Local(p) ==> PlusAlias(p, suffix) != p
  {
    hide Find, Local, Domain, PlusAlias, Normal, BaseLocal;
    AliasParts(p, suffix);
    PartsOf(p);
    BaseIsOwnIff(p);
  }

  /** Two aliases are equal exactly if base and suffix are. */
  lemma AliasesAreEqualIff(p: string, s: string, q: string, t: string)
    requires WellFormed(p) && GoodSuffix(s) && WellFormed(q) && GoodSuffix(t)
    ensures PlusAlias(p, s) == PlusAlias(q, t) <==> BaseOf(p) == BaseOf(q) && s == t
  {
    AliasParts(p, s);
    AliasParts(q, t);
    AliasHasItsBase(p, s);
    AliasHasItsBase(q, t);
    PartsOf(p);
    PartsOf(q);
    PartsOfJoin(BaseLocal(p), Domain(p));
    PartsOfJoin(BaseLocal(q), Domain(q));
    hide Find, Local, Domain, PlusAlias, Normal, BaseLocal;
  }

  // ----------------------------------------------------------------------------------- resolving

  lemma ResolveOfAliasForm(email: string, plus: nat, suffix: string, primaries: set<string>)
    requires WellFormed(email) && email !in primaries
    requires plus == Find(Local(email), '+') < |Local(email)|
    requires Local(email)[plus + 1..] == suffix && GoodSuffix(suffix)
    ensures ResolvedMailbox(email, primaries) == if plus > 0 && BaseOf(email) in primaries then Some(BaseOf(email)) else None
  {
    hide Find, BaseOf, Normal;
  }

  /** Exact matches come first; everything else leads to the base. Whatever is found is a primary address. */
  lemma ResolvedMailboxIs(email: string, primaries: set<string>)
    requires Resolve(email, primaries).Ok?
    ensures ResolvedMailbox(email, primaries) == Some(if email in primaries then email else BaseOf(email))
    ensures ResolvedMailbox(email, primaries).value in primaries
  {
    hide Find, BaseOf;
  }

  /** A suffix has one to thirty-two lower-case letters and digits. */
  lemma GoodSuffixIff(suffix: string)
    ensures GoodSuffix(suffix) <==>
            1 <= |suffix| <= 32 && forall i :: 0 <= i < |suffix| ==> 'a' <= suffix[i] <= 'z' || '0' <= suffix[i] <= '9'
  {
  }

  /** How resolving fails: an address without two parts, with a blank, or with an impossible suffix is malformed; anything else is just unknown. */
  lemma ResolveFailsIff(email: string, primaries: set<string>)
    ensures var plus := Find(Local(email), '+');
            var aliasForm := 0 < plus && plus + 1 < |Local(email)|;
            && (Resolve(email, primaries) == Err(Malformed) <==>
                  || Local(email) == "" || Domain(email) == "" || ' ' in email
                  || (email !in primaries && aliasForm && !GoodSuffix(Local(email)[plus + 1..])))
            && (Resolve(email, primaries) == Err(UnknownAddress) <==>
                  && Local(email) != "" && Domain(email) != "" && ' ' !in email && email !in primaries
                  && (!aliasForm || (GoodSuffix(Local(email)[plus + 1..]) && BaseOf(email) !in primaries)))
  {
    hide Find, BaseOf;
  }

  lemma BaseOfNormal(email: string)
    requires Normal(email) && BaseLocal(email) != "" && HasBothParts(email)
    ensures Normal(BaseOf(email))
  {
    hide Find;
    var at := Find(email, '@');
    var l, d := BaseLocal(email), Domain(email);
    var b := BaseOf(email);
    forall i | 0 <= i < |b| ensures ToLower(b[i]) == b[i] {
      if i < |l| {
        assert b[i] == email[i];
      } else if i > |l| {
        assert b[i] == d[i - |l| - 1] == email[at + 1 + (i - |l| - 1)];
      }
    }
    assert b[0] == email[0] && b[|b| - 1] == d[|d| - 1] == email[|email| - 1];
  }

  /** Since addresses are put into lower case before they are resolved, a primary address in mixed case is never found. */
  lemma OnlyNormalIsResolved(email: string, primaries: set<string>)
    requires Normal(email) && Resolve(email, primaries).Ok?
    ensures Normal(ResolvedMailbox(email, primaries).value)
  {
    hide Find, Normal;
    if email !in primaries {
      BaseOfNormal(email);
    }
  }

  lemma ExactMatchComesFirst(email: string, primaries: set<string>)
    requires WellFormed(email) && email in primaries
    ensures ResolvedMailbox(email, primaries) == Some(email)
  {
    hide Normal, Local, Domain;
  }

  lemma AliasLeadsToBase(p: string, suffix: string, primaries: set<string>)
    requires WellFormed(p) && GoodSuffix(suffix) && PlusAlias(p, suffix) !in primaries
    ensures ResolvedMailbox(PlusAlias(p, suffix), primaries)
         == if BaseLocal(p) != "" && BaseOf(p) in primaries then Some(BaseOf(p)) else None
  {
    hide *;
    AliasIsNormal(p, suffix);
    AliasHasItsBase(p, suffix);
    AliasParts(p, suffix);
    ResolveOfAliasForm(PlusAlias(p, suffix), |BaseLocal(p)|, suffix, primaries);
  }

  lemma NormalAliasResolvesBackIff(p: string, suffix: string, primaries: set<string>)
    requires p in primaries && WellFormed(p) && GoodSuffix(suffix)
    ensures var alias := PlusAlias(p, suffix);
            ResolvedMailbox(alias, primaries) == Some(p) <==> alias == p || ('+' !in Local(p) && alias !in primaries)
  {
    var alias := PlusAlias(p, suffix);
    AliasIsNormal(p, suffix);
    BaseIsOwnIff(p);
    PartsOf(p);
    assert Local(p) != "";
    hide *;
    if alias in primaries {
      ExactMatchComesFirst(alias, primaries);
    } else {
      AliasLeadsToBase(p, suffix, primaries);
    }
  }

  /**
   * Reacquiring by an alias finds the mailbox it was derived from exactly if that mailbox's primary address is in
   * lower case and either has no plus sign and no other primary equals the alias, or itself equals the alias.
   */
  lemma AliasResolvesBackIff(p: string, suffix: string, primaries: set<string>)
    requires p in primaries && HasBothParts(p) && ' ' !in p && GoodSuffix(suffix)
    ensures var alias := PlusAlias(p, suffix);
            ResolvedMailbox(Normalize(alias), primaries) == Some(p) <==>
              Normal(p) && (alias == p || ('+' !in Local(p) && alias !in primaries))
  {
    var alias := PlusAlias(p, suffix);
    NormalizeOfNormal(alias);
    hide PlusAlias, Normalize, Resolve, Normal, HasBothParts, Local;
    if Normal(p) {
      AliasIsNormal(p, suffix);
      NormalAliasResolvesBackIff(p, suffix, primaries);
    } else if ResolvedMailbox(Normalize(alias), primaries) == Some(p) {
      OnlyNormalIsResolved(Normalize(alias), primaries);
    }
  }

  /** Among plain primaries whatever an address resolves to is its base. */
  lemma ResolvedBase(email: string, primaries: set<string>)
    requires forall q :: q in primaries ==> PlainPrimary(q)
    requires Resolve(email, primaries).Ok?
    ensures email != "" && BaseOf(email) in primaries
    ensures Resolve(email, primaries).value == if email in primaries then PrimaryAddress else AliasOf(BaseOf(email))
    ensures Resolve(email, primaries).value.AliasOf? ==> email != BaseOf(email)
    ensures Resolve(email, primaries).value.PrimaryAddress? ==> email == BaseOf(email)
  {
    hide Find, Domain, Normal;
    if email in primaries {
      BaseIsOwnIff(email);
    }
  }
}
