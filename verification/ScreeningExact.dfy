/** What screening answers, said without the functions that compute it. */
module ScreeningExact {
  import opened Prelude
  import opened Text
  import opened Screening

  // ------------------------------------------------------------ normalised names

  /** Normalising works character by character. */
  lemma {:induction false} CleanConcat(a: string, b: string)
    ensures Clean(a + b) == Clean(a) + Clean(b)
  {
    if a == "" {
      assert a + b == b;
    } else {
      hide CleanChar;
      assert (a + b)[0] == a[0] && (a + b)[1..] == a[1..] + b;
      CleanConcat(a[1..], b);
    }
  }

  predicate CapitalOf(c: char, d: char) {
    'A' <= c <= 'Z' && d as int == c as int + 32
  }

  predicate Foreign(c: char) {
    && !('A' <= c <= 'Z') && !('a' <= c <= 'z') && !('0' <= c <= '9') && !IsSpace(c)
    && c != '\U{212A}' && c != '\U{130}'
  }

  /** Letters are lower-cased, digits and blanks kept, anything else becomes a blank; two letters
      outside ASCII lower-case into it. */
  lemma CleanOne(c: char)
    ensures 'A' <= c <= 'Z' ==> exists d :: Clean([c]) == [d] && CapitalOf(c, d)
    ensures 'a' <= c <= 'z' || '0' <= c <= '9' || IsSpace(c) ==> Clean([c]) == [c]
    ensures c == '\U{212A}' ==> Clean([c]) == "k"
    ensures c == '\U{130}' ==> Clean([c]) == "i "
    ensures Foreign(c) ==> Clean([c]) == " "
  {
    assert [c][1..] == "";
    if 'A' <= c <= 'Z' {
      var d := (c as int + 32) as char;
      assert Clean([c]) == [d] && CapitalOf(c, d);
    }
  }

  // ------------------------------------------------------------ one name

  /** The tokens of the name are those of some name on the list. */
  predicate TokensListed(name: string, names: set<string>) {
    exists w :: w in names && multiset(Words(w)) == multiset(NameTokens(name))
  }

  /** The SDN snapshot has the name as it is, or its tokens in another order, or something the
      fuzzy matcher takes for it. */
  predicate OnSdn(name: string, lists: Lists) {
    && NameTokens(name) != [] && lists.sdn != {}
    && (Join(NameTokens(name)) in lists.sdn || TokensListed(name, lists.sdn) || lists.fuzzy(Join(NameTokens(name))))
  }

  lemma {:induction false} TokensListedIff(name: string, names: set<string>)
    ensures TokenSorted(NormaliseName(name)) in TokenSortedAll(names) <==> TokensListed(name, names)
  {
    hide Words, Join, TokenSorted, NameTokens;
    WordsOfJoin(NameTokens(name));
    if w :| w in names && TokenSorted(w) == TokenSorted(NormaliseName(name)) {
      TokenSortedCanonical(NormaliseName(name), w);
    }
    if w :| w in names && multiset(Words(w)) == multiset(NameTokens(name)) {
      TokenSortedCanonical(NormaliseName(name), w);
    }
  }

  lemma {:induction false} EmptyIffNoTokens(name: string)
    ensures NormaliseName(name) == "" <==> NameTokens(name) == []
  {
    hide Words, Clean;
    WordsOfJoin(NameTokens(name));
    NoTokensInEmptyText();
  }

  /** Which list a name is found on, from its tokens: the watchlist goes first, then the SDN
      snapshot, and a name without tokens is on neither. */
  lemma {:induction false} MatchExact(name: string, lists: Lists)
    ensures MatchName(name, lists) ==
              if TokensListed(name, WATCHLIST) then Some(Local)
              else if OnSdn(name, lists) then Some(OfacSdn) else None
  {
    hide Words, Join, TokenSorted, NameTokens, TokenSortedAll, TokensListed;
    LocalMatchIffSameTokens(name, lists);
    assert TokensListed(name, WATCHLIST) <==> MatchName(name, lists) == Some(Local) by {
      LocalIsListed(name);
    }
    TokensListedIff(name, lists.sdn);
    EmptyIffNoTokens(name);
  }

  lemma LocalIsListed(name: string)
    ensures TokensListed(name, WATCHLIST) <==>
            exists w :: w in WATCHLIST && multiset(NameTokens(name)) == multiset(Words(w))
  {
    hide Words, NameTokens, WATCHLIST;
  }

  // ------------------------------------------------------------ client and owners

  predicate Listed(name: string, lists: Lists) {
    TokensListed(name, WATCHLIST) || OnSdn(name, lists)
  }

  /** The match a listed name leads to. */
  function Hit(name: string, kind: string): Match {
    Match(name, kind, if TokensListed(name, WATCHLIST) then "OFAC" else "OFAC-SDN")
  }

  function NameOf(o: Owner): string {
    if o.fullName != "" then o.fullName else o.name
  }

  lemma {:induction false} MatchForExact(name: string, kind: string, lists: Lists)
    ensures MatchFor(name, kind, lists) == if Listed(name, lists) then [Hit(name, kind)] else []
  {
    hide TokensListed, OnSdn, MatchName, WATCHLIST;
    MatchExact(name, lists);
  }

  /** The matches are those of the client and then, owner by owner, those of the named owners. */
  lemma {:induction false} MatchesInOrder(client: string, country: string, owners: seq<Owner>, o: Owner, lists: Lists)
    ensures Screened(client, country, [], lists).matches ==
              if Listed(client, lists) then [Hit(client, "client")] else []
    ensures Screened(client, country, owners + [o], lists).matches ==
              Screened(client, country, owners, lists).matches
              + if NameOf(o) != "" && Listed(NameOf(o), lists) then [Hit(NameOf(o), "beneficial_owner")] else []
  {
    hide Listed, Hit, MatchFor, Upper;
    MatchForExact(client, "client", lists);
    MatchForExact(NameOf(o), "beneficial_owner", lists);
    assert (owners + [o])[..|owners|] == owners;
  }

  lemma {:induction false} OwnerHitIff(owners: seq<Owner>, m: Match, lists: Lists)
    ensures m in OwnerMatches(owners, lists) <==>
            exists o :: o in owners && NameOf(o) != "" && Listed(NameOf(o), lists)
                        && m == Hit(NameOf(o), "beneficial_owner")
  {
    hide Listed, Hit, MatchFor;
    forall o: Owner ensures MatchFor(NameOf(o), "beneficial_owner", lists) ==
                     if Listed(NameOf(o), lists) then [Hit(NameOf(o), "beneficial_owner")] else []
    {
      MatchForExact(NameOf(o), "beneficial_owner", lists);
    }
    OwnerMatchesMember(owners, m, lists);
  }

  /** A client is sanctioned exactly if it or a named owner is on a list; each of them has its
      match, with name, kind and list, and there are no other matches. */
  lemma {:induction false} SanctionsExact(client: string, country: string, owners: seq<Owner>, lists: Lists, m: Match)
    ensures var r := Screened(client, country, owners, lists);
            && (m in r.matches <==>
                  || (Listed(client, lists) && m == Hit(client, "client"))
                  || (exists o :: o in owners && NameOf(o) != "" && Listed(NameOf(o), lists)
                                  && m == Hit(NameOf(o), "beneficial_owner")))
            && (r.isSanctioned <==>
                  Listed(client, lists) || exists o :: o in owners && NameOf(o) != "" && Listed(NameOf(o), lists))
            && (r.screenedAgainst == OfacSdnAndLocal <==> lists.sdn != {})
            && (r.highRiskJurisdiction <==> RiskyCode(country))
  {
    hide Listed, Hit, MatchFor, OwnerMatches, Upper, RiskyCode;
    MatchForExact(client, "client", lists);
    OwnerHitIff(owners, m, lists);
    RiskyIff(country);
    var all := OwnerMatches(owners, lists);
    if all != [] {
      OwnerHitIff(owners, all[0], lists);
    }
    if o :| o in owners && NameOf(o) != "" && Listed(NameOf(o), lists) {
      OwnerHitIff(owners, Hit(NameOf(o), "beneficial_owner"), lists);
    }
  }

  // ------------------------------------------------------------ jurisdictions and markers

  /** `c` is the capital `d`, its small letter, or a letter that capitalises to it. */
  predicate Spells(c: char, d: char) {
    c == d || CapitalOf(d, c) || (c == '\U{131}' && d == 'I') || (c == '\U{17F}' && d == 'S')
  }

  predicate SpellsCode(s: string, a: char, b: char) {
    |s| == 2 && Spells(s[0], a) && Spells(s[1], b)
  }

  /** Iran, Syria or North Korea, in any spelling. */
  predicate RiskyCode(s: string) {
    SpellsCode(s, 'I', 'R') || SpellsCode(s, 'S', 'Y') || SpellsCode(s, 'K', 'P')
  }

  lemma UpperSpells(c: char, d: char)
    requires 'A' <= d <= 'Z'
    ensures UpperChar(c) == d <==> Spells(c, d)
  {
  }

  lemma UpperSpellsCode(s: string, a: char, b: char)
    requires 'A' <= a <= 'Z' && 'A' <= b <= 'Z'
    ensures Upper(s) == [a, b] <==> SpellsCode(s, a, b)
  {
    hide UpperChar, Spells;
    if |s| == 2 {
      UpperSpells(s[0], a);
      UpperSpells(s[1], b);
      assert Upper(s) == [UpperChar(s[0]), UpperChar(s[1])];
    }
  }

  lemma RiskyIff(s: string)
    ensures Upper(s) in HIGH_RISK_JURISDICTIONS <==> RiskyCode(s)
  {
    hide Upper, SpellsCode;
    UpperSpellsCode(s, 'I', 'R');
    UpperSpellsCode(s, 'S', 'Y');
    UpperSpellsCode(s, 'K', 'P');
    assert "IR" == ['I', 'R'] && "SY" == ['S', 'Y'] && "KP" == ['K', 'P'];
  }

  predicate AllBlank(s: string) {
    forall i :: 0 <= i < |s| ==> IsSpace(s[i])
  }

  /** Stripping takes the blanks from both ends and nothing else. */
  lemma {:induction false} StripExact(s: string) returns (left: string, right: string)
    ensures s == left + Stripped(s) + right && AllBlank(left) && AllBlank(right)
    ensures Stripped(s) != "" ==> !IsSpace(Stripped(s)[0]) && !IsSpace(Stripped(s)[|Stripped(s)| - 1])
    decreases |s|
  {
    hide IsSpace;
    left, right := "", "";
    if s != "" && IsSpace(s[0]) {
      var l, r := StripExact(s[1..]);
      left, right := [s[0]] + l, r;
      assert s == [s[0]] + s[1..];
    } else if s != "" && IsSpace(s[|s| - 1]) {
      var l, r := StripExact(s[..|s| - 1]);
      left, right := l, r + [s[|s| - 1]];
      assert s == s[..|s| - 1] + [s[|s| - 1]];
    }
  }

  /** `t` is `m` up to capital letters. */
  predicate IgnoringCase(t: string, m: string) {
    |t| == |m| && forall i :: 0 <= i < |t| ==> t[i] == m[i] || CapitalOf(t[i], m[i])
  }

  lemma MarkerIs(s: string, m: string)
    requires forall i :: 0 <= i < |m| ==> !('A' <= m[i] <= 'Z')
    ensures Marker(s) == m <==> IgnoringCase(Stripped(s), m)
  {
    hide Stripped;
  }

  /** An owner is politically exposed unless the marker is missing, blank or one of three words. */
  lemma PepIff(o: Owner)
    ensures IsPep(o) <==>
            && o.pepStatus.Some?
            && Stripped(o.pepStatus.value) != ""
            && !IgnoringCase(Stripped(o.pepStatus.value), "non_pep")
            && !IgnoringCase(Stripped(o.pepStatus.value), "none")
            && !IgnoringCase(Stripped(o.pepStatus.value), "no")
  {
    hide Marker, Stripped, IgnoringCase;
    if o.pepStatus.Some? {
      MarkerIs(o.pepStatus.value, "");
      MarkerIs(o.pepStatus.value, "non_pep");
      MarkerIs(o.pepStatus.value, "none");
      MarkerIs(o.pepStatus.value, "no");
      EmptyIgnoringCase(Stripped(o.pepStatus.value));
    }
  }

  lemma EmptyIgnoringCase(t: string)
    ensures IgnoringCase(t, "") <==> t == ""
  {
  }

  /** The politically exposed owners stay in their order. */
  lemma PepsInOrder(owners: seq<Owner>, o: Owner)
    ensures Peps([]) == [] && Peps(owners + [o]) == Peps(owners) + if IsPep(o) then [o] else []
  {
    hide IsPep;
    assert (owners + [o])[..|owners|] == owners;
  }

  // ------------------------------------------------------------ the assessment

  /** The base of one, three for a PEP, four for a match, two for a risky jurisdiction, at most
      ten. */
  function Points(pep: bool, listed: bool, risky: bool): real {
    var sum := 1.0 + (if pep then 3.0 else 0.0) + (if listed then 4.0 else 0.0) + (if risky then 2.0 else 0.0);
    if sum < 10.0 then sum else 10.0
  }

  /** Score, level and outcome of a client, from raw input: PEPs, list matches, jurisdiction. */
  lemma {:induction false} AssessmentExact(client: string, jurisdiction: string, owners: seq<Owner>, lists: Lists)
    ensures var pep := exists o :: o in owners && IsPep(o);
            var listed := Listed(Stripped(client), lists)
                          || exists o :: o in owners && NameOf(o) != "" && Listed(NameOf(o), lists);
            var risky := RiskyCode(Stripped(jurisdiction));
            var r := Onboarded(client, jurisdiction, owners, lists);
            && r.score == Points(pep, listed, risky)
            && (r.high <==> r.score >= 5.0)
            && (r.high <==> listed || (pep && risky))
            && (r.status == PendingReview <==> r.score >= 5.0 || pep || listed)
  {
    hide Listed, Stripped, Upper, IsPep, Peps, RiskyCode, Screened;
    var country := Upper(Stripped(jurisdiction));
    SanctionsExact(Stripped(client), country, owners, lists, Match("", "", ""));
    RiskyIff(Stripped(jurisdiction));
    if Peps(owners) != [] {
      PepsMember(owners, Peps(owners)[0]);
    }
    if o :| o in owners && IsPep(o) {
      PepsMember(owners, o);
    }
  }
}
