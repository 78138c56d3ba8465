/** Sanctions and PEP screening of a client and its beneficial owners, and the AML risk
    assessment built on it. */
module Screening {
  import opened Prelude
  import opened Text

  // ------------------------------------------------------------ names

  /** What one character of a name becomes after lower-casing and replacing everything outside
      `[a-z0-9\s]` by a space. The Kelvin sign and the dotted capital I lower-case to ASCII. */
  function CleanChar(c: char): string {
    if 'A' <= c <= 'Z' then [('a' as int + (c as int - 'A' as int)) as char]
    else if 'a' <= c <= 'z' || '0' <= c <= '9' || IsSpace(c) then [c]
    else if c == '\U{212A}' then "k"
    else if c == '\U{130}' then "i "
    else " "
  }

  function Clean(name: string): string {
    if name == "" then "" else CleanChar(name[0]) + Clean(name[1..])
  }

  /** The tokens of a normalised name. */
  function NameTokens(name: string): (ws: seq<string>)
    ensures AllWords(ws)
  {
    Words(Clean(name))
  }

  function NormaliseName(name: string): string {
    Join(NameTokens(name))
  }

  /** `" ".join(sorted(s.split()))`. */
  function TokenSorted(s: string): string {
    Join(LexSort(Words(s)))
  }

  // ------------------------------------------------------------ the lists

  datatype ListName = Local | OfacSdn

  const WATCHLIST: set<string> := {"oleg volkov", "sanctioned holdings ltd", "red star trading"}

  /** The SDN snapshot as normalised names, and the fuzzy matcher, taken as given. */
  datatype Lists = Lists(sdn: set<string>, fuzzy: string -> bool)

  function TokenSortedAll(names: set<string>): set<string> {
    set w | w in names :: TokenSorted(w)
  }

  /** `_match_name`. */
  function MatchName(name: string, lists: Lists): Option<ListName> {
    var normalised := NormaliseName(name);
    if normalised == "" then None
    else if normalised in WATCHLIST || TokenSorted(normalised) in TokenSortedAll(WATCHLIST) then Some(Local)
    else if lists.sdn == {} then None
    else if normalised in lists.sdn then Some(OfacSdn)
    else if TokenSorted(normalised) in TokenSortedAll(lists.sdn) then Some(OfacSdn)
    else if lists.fuzzy(normalised) then Some(OfacSdn)
    else None
  }

  lemma SortedWordsAreWords(ws: seq<string>)
    requires AllWords(ws)
    ensures AllWords(LexSort(ws))
  {
    forall i | 0 <= i < |LexSort(ws)| ensures IsWord(LexSort(ws)[i]) {
      assert LexSort(ws)[i] in multiset(LexSort(ws));
      assert LexSort(ws)[i] in ws;
    }
  }

  /** The token-sorted form is canonical: equal exactly on equal token multisets. */
  lemma {:induction false} TokenSortedCanonical(a: string, b: string)
    ensures TokenSorted(a) == TokenSorted(b) <==> multiset(Words(a)) == multiset(Words(b))
  {
    hide Words, Join, LexSort, AllWords;
    SortedWordsAreWords(Words(a));
    SortedWordsAreWords(Words(b));
    LexSortCanonical(Words(a), Words(b));
    if TokenSorted(a) == TokenSorted(b) {
      JoinInjective(LexSort(Words(a)), LexSort(Words(b)));
    }
  }

  lemma WatchlistHasTokens(w: string)
    requires w in WATCHLIST
    ensures Words(w) != []
  {
    hide Words;
    assert w[0] == 'o' || w[0] == 's' || w[0] == 'r';
    StartsWithToken(w);
  }

  lemma StartsWithToken(s: string)
    requires s != "" && !IsSpace(s[0])
    ensures Words(s) != []
  {
  }

  /** A name is on the local list exactly when its tokens are those of an entry, in any order
      and with any punctuation or case. */
  lemma {:induction false} LocalMatchIffSameTokens(name: string, lists: Lists)
    ensures MatchName(name, lists) == Some(Local) <==>
            exists w :: w in WATCHLIST && multiset(NameTokens(name)) == multiset(Words(w))
  {
    hide Words, Join, TokenSorted, Clean;
    var normalised := NormaliseName(name);
    WordsOfJoin(NameTokens(name));
    assert Words(normalised) == NameTokens(name);
    if normalised in WATCHLIST || TokenSorted(normalised) in TokenSortedAll(WATCHLIST) {
      var w :| w in WATCHLIST && TokenSorted(normalised) == TokenSorted(w);
      TokenSortedCanonical(normalised, w);
    }
    if w :| w in WATCHLIST && multiset(NameTokens(name)) == multiset(Words(w)) {
      TokenSortedCanonical(normalised, w);
      WatchlistHasTokens(w);
      assert Words(w)[0] in multiset(Words(w));
      NoTokensInEmptyText();
    }
  }

  lemma NoTokensInEmptyText()
    ensures Words("") == []
  {
  }

  // ------------------------------------------------------------ screening

  datatype Owner = Owner(fullName: string, name: string, pepStatus: Option<string>) {
    function DisplayName(): string {
      if fullName != "" then fullName else name
    }
  }

  datatype Match = Match(entity: string, kind: string, list: string)

  /** What the names were screened against. */
  datatype Coverage = LocalWatchlist | OfacSdnAndLocal

  function CoverageOf(lists: Lists): Coverage {
    if lists.sdn != {} then OfacSdnAndLocal else LocalWatchlist
  }

  datatype Sanctions = Sanctions(
    isSanctioned: bool,
    matches: seq<Match>,
    highRiskJurisdiction: bool,
    screenedAgainst: Coverage)

  const HIGH_RISK_JURISDICTIONS: set<string> := {"IR", "SY", "KP"}

  /** `c.upper()` as far as the jurisdiction codes can tell: besides a-z, the dotless i and the
      long s have ASCII capitals. */
  function UpperChar(c: char): char {
    if 'a' <= c <= 'z' then ('A' as int + (c as int - 'a' as int)) as char
    else if c == '\U{131}' then 'I'
    else if c == '\U{17F}' then 'S'
    else c
  }

  function Upper(s: string): string {
    seq(|s|, i requires 0 <= i < |s| => UpperChar(s[i]))
  }

  function MatchFor(entity: string, kind: string, lists: Lists): seq<Match> {
    var hit := MatchName(entity, lists);
    if hit.None? then [] else [Match(entity, kind, if hit.value.Local? then "OFAC" else "OFAC-SDN")]
  }

  function OwnerMatches(owners: seq<Owner>, lists: Lists): seq<Match> {
    if owners == [] then []
    else
      var name := owners[|owners| - 1].DisplayName();
      OwnerMatches(owners[..|owners| - 1], lists) + if name == "" then [] else MatchFor(name, "beneficial_owner", lists)
  }

  function Screened(client: string, country: string, owners: seq<Owner>, lists: Lists): Sanctions {
    var matches := MatchFor(client, "client", lists) + OwnerMatches(owners, lists);
    Sanctions(matches != [], matches, Upper(country) in HIGH_RISK_JURISDICTIONS, CoverageOf(lists))
  }

  /** `sanctions_check`. */
  method SanctionsCheck(client: string, country: string, owners: seq<Owner>, lists: Lists) returns (r: Sanctions)
    ensures r == Screened(client, country, owners, lists)
  {
    hide MatchName, Upper;
    var matches: seq<Match> := [];
    var clientList := MatchName(client, lists);
    if clientList.Some? {
      matches := matches + [Match(client, "client", if clientList.value.Local? then "OFAC" else "OFAC-SDN")];
    }
    ghost var first := matches;
    for i := 0 to |owners|
      invariant matches == first + OwnerMatches(owners[..i], lists)
    {
      assert owners[..i + 1][..i] == owners[..i];
      var ownerName := owners[i].DisplayName();
      if ownerName != "" {
        var ownerList := MatchName(ownerName, lists);
        if ownerList.Some? {
          matches := matches
          + [Match(ownerName, "beneficial_owner", if ownerList.value.Local? then "OFAC" else "OFAC-SDN")];
        }
      }
    }
    assert owners[..|owners|] == owners;
    return Sanctions(matches != [], matches, Upper(country) in HIGH_RISK_JURISDICTIONS, CoverageOf(lists));
  }

  // ------------------------------------------------------------ PEP and risk

  function LowerChar(c: char): char {
    if 'A' <= c <= 'Z' then ('a' as int + (c as int - 'A' as int)) as char else c
  }

  /** `s.strip()`. */
  function Stripped(s: string): string
    decreases |s|
  {
    if s != "" && IsSpace(s[0]) then Stripped(s[1..])
    else if s != "" && IsSpace(s[|s| - 1]) then Stripped(s[..|s| - 1])
    else s
  }

  /** `s.strip().lower()`, as far as ASCII markers can tell. */
  function Marker(s: string): string {
    var t := Stripped(s);
    seq(|t|, i requires 0 <= i < |t| => LowerChar(t[i]))
  }

  predicate IsPep(owner: Owner) {
    owner.pepStatus.Some? && Marker(owner.pepStatus.value) !in {"", "non_pep", "none", "no"}
  }

  function Peps(owners: seq<Owner>): seq<Owner> {
    if owners == [] then []
    else Peps(owners[..|owners| - 1]) + if IsPep(owners[|owners| - 1]) then [owners[|owners| - 1]] else []
  }

  /** `_analyze_pep`: the flagged owners in order. */
  method AnalyzePep(owners: seq<Owner>) returns (peps: seq<Owner>)
    ensures peps == Peps(owners)
  {
    peps := [];
    for i := 0 to |owners|
      invariant peps == Peps(owners[..i])
    {
      assert owners[..i + 1][..i] == owners[..i];
      if IsPep(owners[i]) {
        peps := peps + [owners[i]];
      }
    }
    assert owners[..|owners|] == owners;
  }

  datatype Status = PendingReview | Approved

  datatype Assessment = Assessment(score: real, high: bool, status: Status)

  /** `_assess_risk`: what the increments, the cap and the escalation rule come to. */
  method AssessRisk(pepFound: bool, isSanctioned: bool, jurisdiction: string) returns (r: Assessment)
    ensures r == Assessed(pepFound, isSanctioned, jurisdiction)
  {
    var score := 1.0;
    if pepFound {
      score := score + 3.0;
    }
    if isSanctioned {
      score := score + 4.0;
    }
    if jurisdiction in HIGH_RISK_JURISDICTIONS {
      score := score + 2.0;
    }
    score := if score <= 10.0 then score else 10.0;
    var escalate := score >= 5.0 || pepFound || isSanctioned;
    return Assessment(score, score >= 5.0, if escalate then PendingReview else Approved);
  }

  /** The same without the cap (the sum never exceeds it) and with the escalation rule reduced
      to its essence: only a PEP or a sanctions match sends a client to review, a high-risk
      jurisdiction alone never does. */
  function Assessed(pepFound: bool, isSanctioned: bool, jurisdiction: string): Assessment {
    var highRisk := jurisdiction in HIGH_RISK_JURISDICTIONS;
    Assessment(
      1.0 + (if pepFound then 3.0 else 0.0) + (if isSanctioned then 4.0 else 0.0) + (if highRisk then 2.0 else 0.0),
      isSanctioned || (pepFound && highRisk),
      if pepFound || isSanctioned then PendingReview else Approved)
  }

  /** The whole pipeline on raw input: parsing, screening, PEP analysis, risk. */
  function Onboarded(client: string, jurisdiction: string, owners: seq<Owner>, lists: Lists): Assessment {
    var country := Upper(Stripped(jurisdiction));
    Assessed(Peps(owners) != [], Screened(Stripped(client), country, owners, lists).isSanctioned, country)
  }

  // ------------------------------------------------------------ monotonicity

  lemma {:induction false} OwnerMatchesMember(owners: seq<Owner>, m: Match, lists: Lists)
    ensures m in OwnerMatches(owners, lists) <==>
            exists o :: o in owners && o.DisplayName() != ""
                        && m in MatchFor(o.DisplayName(), "beneficial_owner", lists)
  {
    hide MatchFor;
    if owners != [] {
      var init, last := owners[..|owners| - 1], owners[|owners| - 1];
      assert owners == init + [last];
      OwnerMatchesMember(init, m, lists);
    }
  }

  lemma {:induction false} PepsMember(owners: seq<Owner>, o: Owner)
    ensures o in Peps(owners) <==> o in owners && IsPep(o)
  {
    hide IsPep;
    if owners != [] {
      assert owners == owners[..|owners| - 1] + [owners[|owners| - 1]];
      PepsMember(owners[..|owners| - 1], o);
    }
  }

  /** Naming more beneficial owners, anywhere in the list, never removes a match. */
  lemma MoreOwnersKeepMatches(client: string, country: string, some: seq<Owner>, more: seq<Owner>, lists: Lists)
    requires forall o :: o in some ==> o in more
    ensures forall m :: m in Screened(client, country, some, lists).matches ==>
                        m in Screened(client, country, more, lists).matches
  {
    hide MatchFor, OwnerMatches;
    forall m | m in OwnerMatches(some, lists) ensures m in OwnerMatches(more, lists) {
      OwnerMatchesMember(some, m, lists);
      OwnerMatchesMember(more, m, lists);
    }
  }

  /** ... and never lowers the risk or turns a pending review into an approval. */
  lemma {:induction false} MoreOwnersRaiseRisk(
      client: string, jurisdiction: string, some: seq<Owner>, more: seq<Owner>, lists: Lists)
    requires forall o :: o in some ==> o in more
    ensures var a, b := Onboarded(client, jurisdiction, some, lists), Onboarded(client, jurisdiction, more, lists);
            && a.score <= b.score
            && (a.high ==> b.high)
            && (a.status == PendingReview ==> b.status == PendingReview)
  {
    hide Peps, Stripped, Upper, MatchFor, OwnerMatches;
    var name, country := Stripped(client), Upper(Stripped(jurisdiction));
    MoreOwnersKeepMatches(name, country, some, more, lists);
    var s, t := Screened(name, country, some, lists), Screened(name, country, more, lists);
    if s.matches != [] {
      assert s.matches[0] in t.matches;
    }
    if Peps(some) != [] {
      PepsMember(some, Peps(some)[0]);
      PepsMember(more, Peps(some)[0]);
    }
  }

  /** A client is sent to review exactly when somebody matched a list or some owner is a PEP. */
  lemma {:induction false} ReviewIffMatchOrPep(client: string, jurisdiction: string, owners: seq<Owner>, lists: Lists)
    ensures Onboarded(client, jurisdiction, owners, lists).status == PendingReview <==>
            || MatchName(Stripped(client), lists).Some?
            || (exists o :: o in owners && o.DisplayName() != "" && MatchName(o.DisplayName(), lists).Some?)
            || (exists o :: o in owners && IsPep(o))
  {
    hide MatchName, IsPep, OwnerMatches, Peps, Stripped, Upper;
    var matches, peps := OwnerMatches(owners, lists), Peps(owners);
    if matches != [] {
      OwnerMatchesMember(owners, matches[0], lists);
    }
    if peps != [] {
      PepsMember(owners, peps[0]);
    }
    if o :| o in owners && o.DisplayName() != "" && MatchName(o.DisplayName(), lists).Some? {
      OwnerMatchesMember(owners, MatchFor(o.DisplayName(), "beneficial_owner", lists)[0], lists);
    }
    if o :| o in owners && IsPep(o) {
      PepsMember(owners, o);
    }
  }
}
