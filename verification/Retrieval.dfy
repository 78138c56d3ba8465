/** Ranking clean-up and graph expansion of the retriever: trimming, collapsing
    near-duplicates to one canonical source, and the hop to graph neighbours. */
module Retrieval {
  import opened Prelude
  import Text
  import Sorting
  import Graph
  import Evaluation

  /** A ranked hit; `tokens` are the words the signature is taken from. */
  datatype Hit = Hit(id: string, score: real, text: string, tokens: seq<string>, kind: string)

  type Signature = set<string>

  const STOPWORDS: set<string> := {
    "the", "a", "an", "is", "are", "was", "be", "been", "for", "of", "to", "in",
    "on", "and", "or", "with", "by", "at", "as", "that", "this", "it", "its",
    "must", "shall", "should", "may", "not", "no", "all", "any", "per"
  }

  /** `_dedupe_signature`: the sorted tuple of a set is determined by the set. */
  function SignatureOf(h: Hit): Signature {
    set t | t in h.tokens && t !in STOPWORDS
  }

  // ------------------------------------------------------------ trimming

  function AtLeast(pool: seq<Hit>, floor: real): seq<Hit> {
    if pool == [] then []
    else AtLeast(pool[..|pool| - 1], floor) + if pool[|pool| - 1].score >= floor then [pool[|pool| - 1]] else []
  }

  /** Drops hits below half the first hit's score; never drops everything. */
  function Trim(pool: seq<Hit>): (r: seq<Hit>)
    ensures pool != [] ==> r != []
  {
    if pool == [] then []
    else
      var kept := AtLeast(pool, pool[0].score * 0.5);
      if kept != [] then kept else pool[..1]
  }

  // ------------------------------------------------------------ collapsing duplicates

  datatype Group = Group(sig: Signature, hit: Hit, score: real, order: nat)

  /** The position of a signature among the groups; their number when it is new. */
  function GroupIndex(groups: seq<Group>, sig: Signature): (k: nat)
    ensures k <= |groups|
    ensures k < |groups| ==> groups[k].sig == sig
    ensures forall i :: 0 <= i < k ==> groups[i].sig != sig
  {
    if groups == [] || groups[0].sig == sig then 0 else 1 + GroupIndex(groups[1..], sig)
  }

  predicate LexLess(a: string, b: string) {
    !Text.LexLeq(b, a)
  }

  function Max(x: real, y: real): real {
    if x >= y then x else y
  }

  /** One turn of the grouping loop. */
  function Absorb(groups: seq<Group>, hit: Hit, order: nat): seq<Group> {
    var k := GroupIndex(groups, SignatureOf(hit));
    if k == |groups| then groups + [Group(SignatureOf(hit), hit, hit.score, order)]
    else
      var g := groups[k];
      groups[k := g.(score := Max(g.score, hit.score),
                     order := if g.order <= order then g.order else order,
                     hit := if LexLess(hit.id, g.hit.id) then hit else g.hit)]
  }

  function Groups(pool: seq<Hit>): seq<Group> {
    if pool == [] then [] else Absorb(Groups(pool[..|pool| - 1]), pool[|pool| - 1], |pool| - 1)
  }

  /** The hits of one class of near-duplicates. */
  predicate InClass(pool: seq<Hit>, sig: Signature, i: int) {
    0 <= i < |pool| && SignatureOf(pool[i]) == sig
  }

  /** `g` is the class of its signature: placed at its first hit, represented by the first hit
      with the least id, scored with the best score. */
  ghost predicate ExactGroup(pool: seq<Hit>, g: Group) {
    && InClass(pool, g.sig, g.order)
    && (forall i :: InClass(pool, g.sig, i) ==> g.order <= i)
    && (exists i :: InClass(pool, g.sig, i) && pool[i] == g.hit
                    && forall j :: InClass(pool, g.sig, j) && j < i ==> pool[j].id != g.hit.id)
    && (forall i :: InClass(pool, g.sig, i) ==> Text.LexLeq(g.hit.id, pool[i].id))
    && (exists i :: InClass(pool, g.sig, i) && pool[i].score == g.score)
    && (forall i :: InClass(pool, g.sig, i) ==> pool[i].score <= g.score)
  }

  predicate InRankOrder(groups: seq<Group>) {
    forall i, j :: 0 <= i < j < |groups| ==> groups[i].order < groups[j].order && groups[i].sig != groups[j].sig
  }

  lemma NewGroup(pool: seq<Hit>, hit: Hit)
    requires forall i :: !InClass(pool, SignatureOf(hit), i)
    ensures ExactGroup(pool + [hit], Group(SignatureOf(hit), hit, hit.score, |pool|))
  {
    hide SignatureOf;
    var all, sig := pool + [hit], SignatureOf(hit);
    Text.LexReflexive(hit.id);
    forall i | InClass(all, sig, i) ensures i == |pool| {
      assert i < |pool| ==> !InClass(pool, sig, i);
    }
    assert InClass(all, sig, |pool|);
  }

  lemma OldGroup(pool: seq<Hit>, hit: Hit, g: Group)
    requires ExactGroup(pool, g) && g.sig != SignatureOf(hit)
    ensures ExactGroup(pool + [hit], g)
  {
    hide SignatureOf;
    var all := pool + [hit];
    forall i ensures InClass(all, g.sig, i) <==> InClass(pool, g.sig, i) {
      if 0 <= i < |pool| { assert all[i] == pool[i]; }
    }
  }

  lemma GrownGroup(pool: seq<Hit>, hit: Hit, g: Group)
    requires ExactGroup(pool, g) && g.sig == SignatureOf(hit)
    ensures ExactGroup(
              pool + [hit],
              g.(score := Max(g.score, hit.score), hit := if LexLess(hit.id, g.hit.id) then hit else g.hit))
  {
    hide SignatureOf;
    var all := pool + [hit];
    var g' := g.(score := Max(g.score, hit.score), hit := if LexLess(hit.id, g.hit.id) then hit else g.hit);
    forall i | 0 <= i < |pool| ensures InClass(all, g.sig, i) <==> InClass(pool, g.sig, i) {
      assert all[i] == pool[i];
    }
    assert InClass(all, g.sig, |pool|) && all[|pool|] == hit;
    GrownRepresentative(pool, hit, g);
    var s :| InClass(pool, g.sig, s) && pool[s].score == g.score;
    assert InClass(all, g.sig, s) && all[s].score == g.score;
    assert InClass(all, g.sig, g.order);
  }

  lemma GrownRepresentative(pool: seq<Hit>, hit: Hit, g: Group)
    requires ExactGroup(pool, g) && g.sig == SignatureOf(hit)
    ensures var all, rep := pool + [hit], if LexLess(hit.id, g.hit.id) then hit else g.hit;
            && (exists i :: InClass(all, g.sig, i) && all[i] == rep
                            && forall j :: InClass(all, g.sig, j) && j < i ==> all[j].id != rep.id)
            && (forall i :: InClass(all, g.sig, i) ==> Text.LexLeq(rep.id, all[i].id))
  {
    hide SignatureOf;
    var all, rep := pool + [hit], if LexLess(hit.id, g.hit.id) then hit else g.hit;
    forall i | 0 <= i < |pool| ensures InClass(all, g.sig, i) <==> InClass(pool, g.sig, i) {
      assert all[i] == pool[i];
    }
    Text.LexReflexive(hit.id);
    Text.LexTotal(hit.id, g.hit.id);
    forall i | InClass(all, g.sig, i) ensures Text.LexLeq(rep.id, all[i].id) {
      if i < |pool| {
        assert Text.LexLeq(g.hit.id, pool[i].id);
        if rep == hit { Text.LexTransitive(hit.id, g.hit.id, pool[i].id); }
      }
    }
    if LexLess(hit.id, g.hit.id) {
      assert InClass(all, g.sig, |pool|) && all[|pool|] == hit;
      forall j | InClass(all, g.sig, j) && j < |pool| ensures all[j].id != hit.id {
        assert Text.LexLeq(g.hit.id, pool[j].id);
      }
    } else {
      var i :| InClass(pool, g.sig, i) && pool[i] == g.hit
               && forall j :: InClass(pool, g.sig, j) && j < i ==> pool[j].id != g.hit.id;
      assert InClass(all, g.sig, i) && all[i] == g.hit;
      assert forall j :: InClass(all, g.sig, j) && j < i ==> all[j].id != g.hit.id;
    }
  }

  predicate HasGroup(groups: seq<Group>, sig: Signature) {
    exists k :: 0 <= k < |groups| && groups[k].sig == sig
  }

  /** The groups are exactly the classes of near-duplicates, in rank order, none missing. */
  lemma {:induction false} GroupsExact(pool: seq<Hit>)
    ensures InRankOrder(Groups(pool))
    ensures forall k :: 0 <= k < |Groups(pool)| ==> ExactGroup(pool, Groups(pool)[k])
    ensures forall i :: 0 <= i < |pool| ==> HasGroup(Groups(pool), SignatureOf(pool[i]))
  {
    hide SignatureOf, ExactGroup, Absorb, InRankOrder, HasGroup;
    if pool != [] {
      var init, hit := pool[..|pool| - 1], pool[|pool| - 1];
      assert pool == init + [hit];
      GroupsExact(init);
      AbsorbKeepsOrder(init, hit, Groups(init));
      AbsorbKeepsExact(init, hit, Groups(init));
      forall i | 0 <= i < |pool| ensures HasGroup(Groups(pool), SignatureOf(pool[i])) {
        if i < |init| { assert init[i] == pool[i]; }
        AbsorbKeepsGroups(Groups(init), hit, |init|, SignatureOf(pool[i]));
      }
    } else {
      assert InRankOrder([]) by { NoGroupsInOrder(); }
    }
  }

  lemma NoGroupsInOrder()
    ensures InRankOrder([])
  {
  }

  lemma AbsorbKeepsOrder(pool: seq<Hit>, hit: Hit, groups: seq<Group>)
    requires InRankOrder(groups)
    requires forall k :: 0 <= k < |groups| ==> ExactGroup(pool, groups[k])
    ensures InRankOrder(Absorb(groups, hit, |pool|))
  {
    hide SignatureOf, LexLess, Max;
    forall k | 0 <= k < |groups| ensures groups[k].order < |pool| {
      assert ExactGroup(pool, groups[k]);
    }
  }

  lemma {:induction false} AbsorbKeepsExact(pool: seq<Hit>, hit: Hit, groups: seq<Group>)
    requires InRankOrder(groups)
    requires forall k :: 0 <= k < |groups| ==> ExactGroup(pool, groups[k])
    requires forall i :: 0 <= i < |pool| ==> HasGroup(groups, SignatureOf(pool[i]))
    ensures var after := Absorb(groups, hit, |pool|);
            forall k :: 0 <= k < |after| ==> ExactGroup(pool + [hit], after[k])
  {
    hide SignatureOf, LexLess, Max;
    var after, n := Absorb(groups, hit, |pool|), GroupIndex(groups, SignatureOf(hit));
    if n < |groups| {
      assert groups[n].order <= |pool| by { assert ExactGroup(pool, groups[n]); }
      GrownGroup(pool, hit, groups[n]);
    } else {
      forall i ensures !InClass(pool, SignatureOf(hit), i) {
        assert 0 <= i < |pool| ==> HasGroup(groups, SignatureOf(pool[i]));
      }
      NewGroup(pool, hit);
    }
    hide ExactGroup, InClass, GroupIndex;
    forall k | 0 <= k < |after| ensures ExactGroup(pool + [hit], after[k]) {
      if k < |groups| && k != n {
        assert groups[k].sig != SignatureOf(hit);
        OldGroup(pool, hit, groups[k]);
      }
    }
  }

  lemma AbsorbKeepsGroups(groups: seq<Group>, hit: Hit, order: nat, sig: Signature)
    requires HasGroup(groups, sig) || sig == SignatureOf(hit)
    ensures HasGroup(Absorb(groups, hit, order), sig)
  {
    hide SignatureOf, LexLess, Max;
    var after, n := Absorb(groups, hit, order), GroupIndex(groups, SignatureOf(hit));
    assert after[n].sig == SignatureOf(hit);
    if HasGroup(groups, sig) {
      var k :| 0 <= k < |groups| && groups[k].sig == sig;
      assert after[k].sig == sig;
    }
  }

  // ------------------------------------------------------------ citations

  /** A citation; graph-derived ones have no score and say how they were reached. */
  datatype Citation = Citation(sourceId: string, excerpt: string, score: Option<real>, sourceType: string, via: string)

  function Excerpt(text: string): string {
    text[..Clamp(text, 300)]
  }

  function CitationOf(g: Group): Citation {
    Citation(g.hit.id, Excerpt(g.hit.text), Some(g.score), g.hit.kind, "")
  }

  function Take<T>(s: seq<T>, n: nat): seq<T> {
    s[..Clamp(s, n)]
  }

  const BY_ORDER: Group -> int := (g: Group) => g.order

  /** The citations of the vector search alone: the first k classes, in rank order. */
  function VectorCitations(pool: seq<Hit>, k: nat): (cs: seq<Citation>)
    ensures |cs| <= k
  {
    var groups := Take(Groups(Trim(pool)), k);
    seq(|groups|, i requires 0 <= i < |groups| => CitationOf(groups[i]))
  }

  /** The canonical citations mean what they should: distinct classes in rank order, each by
      its least id and best score, and no class of the trimmed pool is skipped before the
      k-th. */
  lemma VectorCitationsExact(pool: seq<Hit>, k: nat)
    ensures var trimmed, groups := Trim(pool), Groups(Trim(pool));
            && |VectorCitations(pool, k)| == (if |groups| < k then |groups| else k)
            && InRankOrder(groups)
            && (forall i :: 0 <= i < |VectorCitations(pool, k)| ==>
                  ExactGroup(trimmed, groups[i]) && VectorCitations(pool, k)[i] == CitationOf(groups[i]))
            && (forall i :: 0 <= i < |trimmed| ==> HasGroup(groups, SignatureOf(trimmed[i])))
  {
    GroupsExact(Trim(pool));
  }

  // ------------------------------------------------------------ the graph hop

  /** What the store answers for a source; None when the call raises. */
  type Hop = string -> Option<seq<Graph.Neighbour>>

  function HopOrNothing(hop: Hop, source: string): seq<Graph.Neighbour> {
    hop(source).GetOr([])
  }

  function Linked(source: string, n: Graph.Neighbour): Citation {
    Citation(n.id, Excerpt(n.text), None, n.tag, source + " " + n.relType)
  }

  function LinkedAll(source: string, ns: seq<Graph.Neighbour>): seq<Citation> {
    if ns == [] then [] else [Linked(source, ns[0])] + LinkedAll(source, ns[1..])
  }

  /** Every neighbour of every citation, in order. */
  function AllLinked(citations: seq<Citation>, hop: Hop): seq<Citation> {
    if citations == [] then []
    else LinkedAll(citations[0].sourceId, HopOrNothing(hop, citations[0].sourceId)) + AllLinked(citations[1..], hop)
  }

  function Ids(citations: seq<Citation>): set<string> {
    set c | c in citations :: c.sourceId
  }

  /** The first occurrence of every source not cited already. */
  function Fresh(candidates: seq<Citation>, already: set<string>): seq<Citation> {
    if candidates == [] then []
    else if candidates[0].sourceId in already then Fresh(candidates[1..], already)
    else [candidates[0]] + Fresh(candidates[1..], already + {candidates[0].sourceId})
  }

  /** The reference for the hop: the first `limit` fresh neighbours. */
  function Expansion(citations: seq<Citation>, limit: nat, hop: Hop): seq<Citation> {
    Take(Fresh(AllLinked(citations, hop), Ids(citations)), limit)
  }

  /** Where the hop stands: either the limit is reached, or what is still to come completes the goal. */
  predicate Underway(added: seq<Citation>, rest: seq<Citation>, already: set<string>, limit: nat, goal: seq<Citation>) {
    && |added| <= limit
    && added <= goal
    && (|added| < limit ==> added + Fresh(rest, already) == goal)
  }

  lemma UnderwayFrom(added: seq<Citation>, rest: seq<Citation>, already: set<string>, limit: nat, goal: seq<Citation>)
    requires |added| <= limit && added + Fresh(rest, already) == goal
    ensures Underway(added, rest, already, limit, goal)
  {
  }

  lemma HopStep(
      c: Citation, rest: seq<Citation>, already: set<string>, added: seq<Citation>, limit: nat, goal: seq<Citation>)
    requires Underway(added, [c] + rest, already, limit, goal) && |added| < limit
    ensures if c.sourceId in already then Underway(added, rest, already, limit, goal)
            else Underway(added + [c], rest, already + {c.sourceId}, limit, goal)
  {
    FreshHead(c, rest, already, added);
    if c.sourceId !in already {
      assert added + [c] <= (added + [c]) + Fresh(rest, already + {c.sourceId});
    }
  }

  lemma HopDone(added: seq<Citation>, already: set<string>, limit: nat, goal: seq<Citation>)
    requires Underway(added, [], already, limit, goal)
    ensures added == Take(goal, limit)
  {
  }

  /** Once the limit is reached, what is still to come does not matter. */
  lemma FullStaysFull(
      added: seq<Citation>, rest: seq<Citation>, other: seq<Citation>,
      already: set<string>, limit: nat, goal: seq<Citation>)
    requires Underway(added, rest, already, limit, goal) && |added| >= limit
    ensures Underway(added, other, already, limit, goal)
  {
  }

  lemma NothingLeft(source: string, ns: seq<Graph.Neighbour>, later: seq<Citation>)
    ensures LinkedAll(source, ns[|ns|..]) + later == later
  {
  }

  lemma NoCitationLeft(citations: seq<Citation>, hop: Hop)
    ensures AllLinked(citations[|citations|..], hop) == []
  {
  }

  lemma LinkedStep(source: string, ns: seq<Graph.Neighbour>, j: nat, later: seq<Citation>)
    requires j < |ns|
    ensures LinkedAll(source, ns[j..]) + later == [Linked(source, ns[j])] + (LinkedAll(source, ns[j + 1..]) + later)
  {
    assert ns[j..][1..] == ns[j + 1..];
  }

  lemma CitationStep(citations: seq<Citation>, i: nat, hop: Hop)
    requires i < |citations|
    ensures AllLinked(citations[i..], hop) ==
            LinkedAll(citations[i].sourceId, HopOrNothing(hop, citations[i].sourceId)[0..])
            + AllLinked(citations[i + 1..], hop)
  {
    var ns := HopOrNothing(hop, citations[i].sourceId);
    assert citations[i..][1..] == citations[i + 1..] && ns[0..] == ns;
  }

  /** `_graph_augment`. */
  method GraphAugment(citations: seq<Citation>, limit: nat, hop: Hop) returns (added: seq<Citation>)
    ensures added == Expansion(citations, limit, hop)
  {
    var already := Ids(citations);
    ghost var goal := Fresh(AllLinked(citations, hop), already);
    added := [];
    assert citations[0..] == citations;
    UnderwayFrom(added, AllLinked(citations, hop), already, limit, goal);
    hide Ids, Underway, AllLinked, LinkedAll, Fresh, Linked;
    for i := 0 to |citations|
      invariant Underway(added, AllLinked(citations[i..], hop), already, limit, goal)
    {
      if |added| >= limit {
        FullStaysFull(added, AllLinked(citations[i..], hop), [], already, limit, goal);
        HopDone(added, already, limit, goal);
        return;
      }
      CitationStep(citations, i, hop);
      var neighbours := HopOrNothing(hop, citations[i].sourceId);
      ghost var source, later := citations[i].sourceId, AllLinked(citations[i + 1..], hop);
      for j := 0 to |neighbours|
        invariant Underway(added, LinkedAll(source, neighbours[j..]) + later, already, limit, goal)
      {
        if |added| >= limit {
          FullStaysFull(added, LinkedAll(source, neighbours[j..]) + later, later, already, limit, goal);
          break;
        }
        var c := Linked(citations[i].sourceId, neighbours[j]);
        LinkedStep(source, neighbours, j, later);
        HopStep(c, LinkedAll(source, neighbours[j + 1..]) + later, already, added, limit, goal);
        if c.sourceId in already {
          continue;
        }
        already := already + {c.sourceId};
        added := added + [c];
      }
      NothingLeft(source, neighbours, later);
    }
    NoCitationLeft(citations, hop);
    HopDone(added, already, limit, goal);
  }

  lemma FreshHead(c: Citation, rest: seq<Citation>, already: set<string>, added: seq<Citation>)
    ensures added + Fresh([c] + rest, already) ==
            if c.sourceId in already then added + Fresh(rest, already)
            else (added + [c]) + Fresh(rest, already + {c.sourceId})
  {
    assert ([c] + rest)[1..] == rest;
  }

  // ------------------------------------------------------------ retrieve

  const FALLBACK: seq<Citation> :=
    [Citation("POL-AML-01", "Enhanced customer due diligence is required for high-risk profiles.", None, "", "")]

  function Retrieved(pool: seq<Hit>, k: nat, augment: bool, hop: Hop): seq<Citation> {
    var cs := VectorCitations(pool, k);
    var all := if augment && cs != [] then cs + Expansion(cs, k, hop) else cs;
    if all != [] then all else FALLBACK
  }

  lemma VectorCitationsAt(pool: seq<Hit>, k: nat, ranked: seq<Group>)
    requires ranked == Take(Groups(Trim(pool)), k)
    ensures |VectorCitations(pool, k)| == |ranked|
    ensures forall i :: 0 <= i < |ranked| ==> VectorCitations(pool, k)[i] == CitationOf(ranked[i])
  {
    hide Groups, Trim, CitationOf;
  }

  /** `retrieve` on the pool the vector search returned. */
  method Retrieve(pool: seq<Hit>, k: nat, augment: bool, hop: Hop) returns (citations: seq<Citation>)
    ensures citations == Retrieved(pool, k, augment, hop)
  {
    hide Absorb, CitationOf, Trim, InRankOrder, VectorCitations, Expansion, FALLBACK, Take;
    var trimmed := Trim(pool);
    var groups: seq<Group> := [];
    for order := 0 to |trimmed|
      invariant groups == Groups(trimmed[..order])
    {
      assert trimmed[..order + 1][..order] == trimmed[..order];
      groups := Absorb(groups, trimmed[order], order);
    }
    assert trimmed[..|trimmed|] == trimmed;
    GroupsAlreadySorted(trimmed);
    var ranked := Take(Sorting.SortBy(BY_ORDER, groups), k);
    VectorCitationsAt(pool, k, ranked);
    citations := [];
    for i := 0 to |ranked|
      invariant citations == VectorCitations(pool, k)[..i]
    {
      citations := citations + [CitationOf(ranked[i])];
    }
    assert citations == VectorCitations(pool, k);
    if augment && citations != [] {
      var added := GraphAugment(citations, k, hop);
      citations := citations + added;
    }
    return if citations != [] then citations else FALLBACK;
  }

  /** The dictionary's insertion order is the rank order, so sorting changes nothing. */
  lemma {:induction false} GroupsAlreadySorted(pool: seq<Hit>)
    ensures Sorting.SortBy(BY_ORDER, Groups(pool)) == Groups(pool)
  {
    hide SignatureOf, ExactGroup, Groups, HasGroup;
    GroupsExact(pool);
    var groups := Groups(pool);
    forall i, j | 0 <= i < j < |groups| ensures BY_ORDER(groups[i]) <= BY_ORDER(groups[j]) {
    }
    Sorting.SortBySortedIsIdentity(BY_ORDER, groups);
  }

  function SourceIds(citations: seq<Citation>): (ids: seq<string>)
    ensures |ids| == |citations|
  {
    seq(|citations|, i requires 0 <= i < |citations| => citations[i].sourceId)
  }

  /** No source is cited already, none twice. */
  predicate AllNew(cs: seq<Citation>, already: set<string>) {
    && (forall i :: 0 <= i < |cs| ==> cs[i].sourceId !in already)
    && (forall i, j :: 0 <= i < j < |cs| ==> cs[i].sourceId != cs[j].sourceId)
  }

  lemma AllNewPrepended(c: Citation, rest: seq<Citation>, already: set<string>)
    requires c.sourceId !in already && AllNew(rest, already + {c.sourceId})
    ensures AllNew([c] + rest, already)
  {
    var cs := [c] + rest;
    forall i | 0 <= i < |cs| ensures cs[i].sourceId !in already {
      assert i > 0 ==> cs[i] == rest[i - 1];
    }
    forall i, j | 0 <= i < j < |cs| ensures cs[i].sourceId != cs[j].sourceId {
      assert cs[j] == rest[j - 1] && (i > 0 ==> cs[i] == rest[i - 1]);
    }
  }

  lemma {:induction false} FreshIsNew(candidates: seq<Citation>, already: set<string>)
    ensures AllNew(Fresh(candidates, already), already)
  {
    hide AllNew;
    if candidates == [] {
      NothingIsNew(already);
    } else if candidates[0].sourceId in already {
      FreshIsNew(candidates[1..], already);
    } else {
      FreshIsNew(candidates[1..], already + {candidates[0].sourceId});
      AllNewPrepended(candidates[0], Fresh(candidates[1..], already + {candidates[0].sourceId}), already);
    }
  }

  lemma NothingIsNew(already: set<string>)
    ensures AllNew([], already)
  {
  }

  /** Every candidate source is cited already or becomes fresh. */
  lemma {:induction false} FreshMissesNothing(candidates: seq<Citation>, already: set<string>, i: nat)
    requires i < |candidates|
    ensures candidates[i].sourceId in already + Ids(Fresh(candidates, already))
  {
    hide Ids;
    var id := candidates[0].sourceId;
    FreshHeadIds(candidates, already);
    if i > 0 {
      FreshMissesNothing(candidates[1..], if id in already then already else already + {id}, i - 1);
    }
  }

  lemma FreshHeadIds(candidates: seq<Citation>, already: set<string>)
    requires candidates != []
    ensures var id := candidates[0].sourceId;
            already + Ids(Fresh(candidates, already)) ==
            already + {id} + Ids(Fresh(candidates[1..], if id in already then already else already + {id}))
  {
    var id := candidates[0].sourceId;
    if id !in already {
      var rest := Fresh(candidates[1..], already + {id});
      var all := [candidates[0]] + rest;
      assert forall c :: c in all <==> c == candidates[0] || c in rest;
      assert candidates[0] in all;
      assert Ids(all) == {id} + Ids(rest);
    }
  }

  /** The hop only appends: at most k sources, none cited before, none twice; and if it stops
      short of k, every neighbour of every citation is cited. */
  lemma {:induction false} HopOnlyAppends(pool: seq<Hit>, k: nat, hop: Hop)
    ensures var plain, rich := Retrieved(pool, k, false, hop), Retrieved(pool, k, true, hop);
            && plain <= rich && |rich| <= |plain| + k
            && AllNew(rich[|plain|..], Ids(plain))
            && (VectorCitations(pool, k) != [] && |rich| < |plain| + k ==>
                  forall c :: c in AllLinked(plain, hop) ==> c.sourceId in Ids(plain) + Ids(rich[|plain|..]))
  {
    hide VectorCitations, AllLinked, Fresh;
    var cs := VectorCitations(pool, k);
    if cs != [] {
      var candidates := AllLinked(cs, hop);
      var novel, rich := Fresh(candidates, Ids(cs)), Retrieved(pool, k, true, hop);
      FreshIsNew(candidates, Ids(cs));
      assert rich == cs + Take(novel, k);
      assert rich[|cs|..] == Take(novel, k);
      if |rich| < |cs| + k {
        assert rich[|cs|..] == novel;
        forall c | c in candidates ensures c.sourceId in Ids(cs) + Ids(novel) {
          var i :| 0 <= i < |candidates| && candidates[i] == c;
          FreshMissesNothing(candidates, Ids(cs), i);
        }
      }
    }
  }

  /** Whatever the golden sources are, the graph hop never lowers recall. */
  lemma {:induction false} HopNeverLowersRecall(pool: seq<Hit>, k: nat, hop: Hop, expected: seq<string>)
    ensures Evaluation.ContextRecall(SourceIds(Retrieved(pool, k, false, hop)), expected)
         <= Evaluation.ContextRecall(SourceIds(Retrieved(pool, k, true, hop)), expected)
  {
    hide Retrieved, Ids;
    HopOnlyAppends(pool, k, hop);
    var plain, rich := Retrieved(pool, k, false, hop), Retrieved(pool, k, true, hop);
    assert forall i :: 0 <= i < |plain| ==> SourceIds(plain)[i] == SourceIds(rich)[i];
    Evaluation.RecallMonotone(SourceIds(plain), SourceIds(rich), expected);
  }
}
