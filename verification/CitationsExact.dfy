/** What is cited, said without the functions that build citations: which hit stands for a class of
    near-duplicates, and where a citation found over the graph comes from. */
module CitationsExact {
  import opened Prelude
  import opened Retrieval

  /** `picked` are the elements of `s` at these positions. */
  ghost predicate PickedAt<T>(picked: seq<T>, s: seq<T>, idx: seq<nat>)
    requires AscendingBelow(idx, |s|)
  {
    |picked| == |idx| && forall i :: 0 <= i < |idx| ==> picked[i] == s[idx[i]]
  }

  // ------------------------------------------------------------ trimming

  /** The positions of the hits with at least half the score of the first. */
  ghost predicate HalfPositions(idx: seq<nat>, pool: seq<Hit>, floor: real) {
    AscendingBelow(idx, |pool|) && forall i :: 0 <= i < |pool| ==> (i in idx <==> pool[i].score >= floor)
  }

  lemma {:induction false} AtLeastPositions(pool: seq<Hit>, floor: real) returns (idx: seq<nat>)
    ensures HalfPositions(idx, pool, floor) && PickedAt(AtLeast(pool, floor), pool, idx)
  {
    idx := [];
    if pool != [] {
      var init, last := pool[..|pool| - 1], |pool| - 1;
      var before := AtLeastPositions(init, floor);
      idx := before + if pool[last].score >= floor then [last] else [];
      forall i | 0 <= i < |pool| ensures i in idx <==> pool[i].score >= floor {
        if i < last {
          assert init[i] == pool[i];
        } else {
          assert i !in before;
        }
      }
    }
  }

  lemma HalfIs(x: real)
    ensures x * 0.5 == x / 2.0
  {
  }

  lemma TrimIs(pool: seq<Hit>, floor: real)
    requires pool != [] && floor == pool[0].score * 0.5
    ensures Trim(pool) == if AtLeast(pool, floor) != [] then AtLeast(pool, floor) else [pool[0]]
    ensures Trim([]) == []
  {
    hide AtLeast;
    assert pool[..1] == [pool[0]];
  }

  /** Trimming keeps the hits with at least half the score of the first, in order; if there are
      none (scores can be negative) it keeps the first. */
  lemma TrimExact(pool: seq<Hit>) returns (idx: seq<nat>)
    requires pool != []
    ensures HalfPositions(idx, pool, pool[0].score / 2.0)
    ensures if idx == [] then Trim(pool) == [pool[0]] else PickedAt(Trim(pool), pool, idx)
    ensures Trim([]) == []
  {
    hide AtLeast, Trim;
    var floor := pool[0].score / 2.0;
    HalfIs(pool[0].score);
    TrimIs(pool, floor);
    idx := AtLeastPositions(pool, floor);
  }

  // ------------------------------------------------------------ classes of near-duplicates

  /** The same words apart from stop words. */
  predicate SameWords(g: Hit, h: Hit) {
    forall t :: t in g.tokens + h.tokens && t !in STOPWORDS ==> (t in g.tokens <==> t in h.tokens)
  }

  lemma SameSignatureIff(g: Hit, h: Hit)
    ensures SignatureOf(g) == SignatureOf(h) <==> SameWords(g, h)
  {
    hide STOPWORDS;
    if SameWords(g, h) {
      forall t ensures t in SignatureOf(g) <==> t in SignatureOf(h) {
        assert t in g.tokens || t in h.tokens ==> t in g.tokens + h.tokens;
      }
    }
    if SignatureOf(g) == SignatureOf(h) {
      forall t | t in g.tokens + h.tokens && t !in STOPWORDS ensures t in g.tokens <==> t in h.tokens {
        assert t in SignatureOf(g) <==> t in SignatureOf(h);
      }
    }
  }

  /** The positions of the hits that are no near-duplicate of an earlier one. */
  ghost predicate FirstsOf(firsts: seq<nat>, pool: seq<Hit>) {
    && AscendingBelow(firsts, |pool|)
    && (forall i :: 0 <= i < |firsts| ==> IsFirst(pool, firsts[i]))
    && (forall p :: 0 <= p < |pool| ==> Represented(firsts, pool, p))
  }

  /** No earlier hit has the same words. */
  predicate IsFirst(pool: seq<Hit>, k: nat)
    requires k < |pool|
  {
    forall p :: 0 <= p < k ==> !SameWords(pool[p], pool[k])
  }

  predicate Represented(firsts: seq<nat>, pool: seq<Hit>, p: nat)
    requires p < |pool| && AscendingBelow(firsts, |pool|)
  {
    exists i :: 0 <= i < |firsts| && SameWords(pool[p], pool[firsts[i]])
  }

  /** `c` cites the class of the hit at `p`: by the least id of the class, with the first 300
      characters and the kind of the first hit of the class with that id, and the best score. */
  ghost predicate CitesClass(pool: seq<Hit>, p: nat, c: Citation)
    requires p < |pool|
  {
    && (exists j :: 0 <= j < |pool| && SameWords(pool[j], pool[p]) && Cites(pool, p, j, c))
    && (forall l :: 0 <= l < |pool| && SameWords(pool[l], pool[p]) ==> Text.LexLeq(c.sourceId, pool[l].id))
    && c.score.Some? && c.via == ""
    && (exists l :: 0 <= l < |pool| && SameWords(pool[l], pool[p]) && pool[l].score == c.score.value)
    && (forall l :: 0 <= l < |pool| && SameWords(pool[l], pool[p]) ==> pool[l].score <= c.score.value)
  }

  ghost predicate Cites(pool: seq<Hit>, p: nat, j: nat, c: Citation)
    requires p < |pool| && j < |pool|
  {
    && c.sourceId == pool[j].id && c.sourceType == pool[j].kind
    && First300(c.excerpt, pool[j].text)
    && forall l :: 0 <= l < j && SameWords(pool[l], pool[p]) ==> pool[l].id != pool[j].id
  }

  predicate First300(excerpt: string, text: string) {
    excerpt == if |text| <= 300 then text else text[..300]
  }

  lemma ExcerptIs(text: string)
    ensures First300(Excerpt(text), text)
  {
  }

  lemma GroupIsCited(pool: seq<Hit>, g: Group)
    requires ExactGroup(pool, g)
    ensures CitesClass(pool, g.order, CitationOf(g))
  {
    hide SignatureOf, SameWords, Excerpt;
    var p, c := g.order, CitationOf(g);
    forall l | 0 <= l < |pool| ensures InClass(pool, g.sig, l) <==> SameWords(pool[l], pool[p]) {
      SameSignatureIff(pool[l], pool[p]);
    }
    var j :| InClass(pool, g.sig, j) && pool[j] == g.hit
             && forall l :: InClass(pool, g.sig, l) && l < j ==> pool[l].id != g.hit.id;
    ExcerptIs(g.hit.text);
    assert Cites(pool, p, j, c);
  }

  function OrdersOf(groups: seq<Group>): seq<nat> {
    seq(|groups|, i requires 0 <= i < |groups| => groups[i].order)
  }

  lemma GroupIsFirst(pool: seq<Hit>, g: Group)
    requires ExactGroup(pool, g)
    ensures 0 <= g.order < |pool| && IsFirst(pool, g.order)
  {
    hide SignatureOf, SameWords;
    forall p | 0 <= p < g.order ensures !SameWords(pool[p], pool[g.order]) {
      SameSignatureIff(pool[p], pool[g.order]);
      assert InClass(pool, g.sig, p) ==> g.order <= p;
    }
  }

  lemma InItsGroup(pool: seq<Hit>, g: Group, p: nat)
    requires ExactGroup(pool, g) && p < |pool| && g.sig == SignatureOf(pool[p])
    ensures SameWords(pool[p], pool[g.order])
  {
    hide SignatureOf, SameWords;
    SameSignatureIff(pool[p], pool[g.order]);
  }

  lemma OrderInPool(pool: seq<Hit>, g: Group)
    requires ExactGroup(pool, g)
    ensures 0 <= g.order < |pool|
  {
  }

  lemma OrdersAscend(pool: seq<Hit>)
    ensures AscendingBelow(OrdersOf(Groups(pool)), |pool|)
  {
    hide Groups, ExactGroup;
    var groups := Groups(pool);
    GroupsExact(pool);
    forall i | 0 <= i < |groups| ensures groups[i].order < |pool| {
      OrderInPool(pool, groups[i]);
    }
  }

  lemma EveryHitRepresented(pool: seq<Hit>, p: nat)
    requires p < |pool| && AscendingBelow(OrdersOf(Groups(pool)), |pool|)
    ensures Represented(OrdersOf(Groups(pool)), pool, p)
  {
    hide SignatureOf, SameWords, Groups, ExactGroup;
    var groups := Groups(pool);
    GroupsExact(pool);
    assert HasGroup(groups, SignatureOf(pool[p]));
    var i :| 0 <= i < |groups| && groups[i].sig == SignatureOf(pool[p]);
    OrderInPool(pool, groups[i]);
    InItsGroup(pool, groups[i], p);
    assert OrdersOf(groups)[i] == groups[i].order;
  }

  lemma GroupsAreFirsts(pool: seq<Hit>)
    ensures FirstsOf(OrdersOf(Groups(pool)), pool)
  {
    hide SignatureOf, Groups, ExactGroup, IsFirst, Represented;
    var groups := Groups(pool);
    OrdersAscend(pool);
    GroupsExact(pool);
    forall i | 0 <= i < |groups| ensures IsFirst(pool, OrdersOf(groups)[i]) {
      GroupIsFirst(pool, groups[i]);
    }
    forall p | 0 <= p < |pool| ensures Represented(OrdersOf(groups), pool, p) {
      EveryHitRepresented(pool, p);
    }
  }

  /** Before the hop: the first k classes of the trimmed pool in the order of their first hits,
      each cited by its least id; the built-in citation if there is none. */
  lemma {:induction false} PlainCitationsExact(pool: seq<Hit>, k: nat, hop: Hop) returns (firsts: seq<nat>)
    ensures FirstsOf(firsts, Trim(pool))
    ensures var cs := Retrieved(pool, k, false, hop);
            if pool == [] || k == 0 then cs == FALLBACK
            else
              && |cs| == (if |firsts| < k then |firsts| else k)
              && forall i :: 0 <= i < |cs| ==> CitesClass(Trim(pool), firsts[i], cs[i])
  {
    hide Groups, Trim, CitesClass, CitationOf, ExactGroup, FirstsOf, SignatureOf, FALLBACK;
    var trimmed := Trim(pool);
    var groups := Groups(trimmed);
    firsts := OrdersOf(groups);
    GroupsAreFirsts(trimmed);
    GroupsExact(trimmed);
    FirstsInPool(firsts, trimmed);
    forall i | 0 <= i < |groups| ensures CitesClass(trimmed, firsts[i], CitationOf(groups[i])) {
      GroupIsCited(trimmed, groups[i]);
    }
    TrimNonEmpty(pool);
    SomeGroup(trimmed);
  }

  lemma FirstsInPool(firsts: seq<nat>, pool: seq<Hit>)
    requires FirstsOf(firsts, pool)
    ensures forall i :: 0 <= i < |firsts| ==> firsts[i] < |pool|
  {
    hide SameWords;
  }

  lemma SomeGroup(pool: seq<Hit>)
    ensures Groups(pool) == [] <==> pool == []
  {
    hide Groups, SignatureOf, ExactGroup;
    GroupsExact(pool);
    if pool != [] {
      assert HasGroup(Groups(pool), SignatureOf(pool[0]));
    } else if Groups(pool) != [] {
      OrderInPool(pool, Groups(pool)[0]);
    }
  }

  lemma TrimNonEmpty(pool: seq<Hit>)
    ensures Trim(pool) == [] <==> pool == []
  {
  }

  // ------------------------------------------------------------ the hop

  /** `c` cites the neighbour `n` of the source. */
  predicate CitesNeighbour(c: Citation, source: string, n: Graph.Neighbour) {
    && c.sourceId == n.id && First300(c.excerpt, n.text) && c.score.None? && c.sourceType == n.tag
    && c.via == source + " " + n.relType
  }

  /** The candidates of the hop: for each citation in order, each neighbour in order. */
  lemma {:induction false} CandidatesLaws(c: Citation, cs: seq<Citation>, hop: Hop)
    ensures AllLinked([], hop) == []
    ensures var ns := if hop(c.sourceId).Some? then hop(c.sourceId).value else [];
            var own := AllLinked([c], hop);
            && |own| == |ns| && (forall j :: 0 <= j < |ns| ==> CitesNeighbour(own[j], c.sourceId, ns[j]))
            && AllLinked([c] + cs, hop) == own + AllLinked(cs, hop)
  {
    hide LinkedAll;
    var ns := HopOrNothing(hop, c.sourceId);
    LinkedExact(c.sourceId, ns);
    assert ([c] + cs)[1..] == cs && [c][1..] == [];
    assert AllLinked([c], hop) == LinkedAll(c.sourceId, ns) + [];
  }

  lemma {:induction false} LinkedExact(source: string, ns: seq<Graph.Neighbour>)
    ensures |LinkedAll(source, ns)| == |ns|
    ensures forall j :: 0 <= j < |ns| ==> CitesNeighbour(LinkedAll(source, ns)[j], source, ns[j])
  {
    if ns != [] {
      LinkedExact(source, ns[1..]);
      ExcerptIs(ns[0].text);
    }
  }

  /** The candidate at `p` is cited neither already nor by an earlier candidate. */
  predicate Novel(candidates: seq<Citation>, already: set<string>, p: nat)
    requires p < |candidates|
  {
    candidates[p].sourceId !in already && forall o :: 0 <= o < p ==> candidates[o].sourceId != candidates[p].sourceId
  }

  ghost predicate NovelPositions(idx: seq<nat>, candidates: seq<Citation>, already: set<string>) {
    AscendingBelow(idx, |candidates|)
    && forall p :: 0 <= p < |candidates| ==> (p in idx <==> Novel(candidates, already, p))
  }

  lemma ShiftedMember(idx: seq<nat>, p: nat)
    ensures p in Shifted(idx) <==> p > 0 && p - 1 in idx
  {
    if p > 0 && p - 1 in idx {
      var i :| 0 <= i < |idx| && idx[i] == p - 1;
      assert Shifted(idx)[i] == p;
    }
  }

  /** Whether the candidate at `p` is new, seen from the second candidate on. */
  lemma NovelFromNext(candidates: seq<Citation>, already: set<string>, p: nat)
    requires candidates != [] && 0 < p < |candidates|
    ensures Novel(candidates, already, p) <==> Novel(candidates[1..], already + {candidates[0].sourceId}, p - 1)
  {
    var rest := candidates[1..];
    assert forall o :: 0 <= o < |rest| ==> rest[o] == candidates[o + 1];
    if Novel(rest, already + {candidates[0].sourceId}, p - 1) {
      forall o | 0 <= o < p ensures candidates[o].sourceId != candidates[p].sourceId {
        assert o > 0 ==> candidates[o] == rest[o - 1];
      }
    }
  }

  lemma NovelBehind(candidates: seq<Citation>, already: set<string>, later: seq<nat>, idx: seq<nat>)
    requires candidates != [] && AscendingBelow(idx, |candidates|)
    requires NovelPositions(later, candidates[1..], already + {candidates[0].sourceId})
    requires forall p: nat :: p in idx <==> (p == 0 && candidates[0].sourceId !in already) || (p > 0 && p - 1 in later)
    ensures NovelPositions(idx, candidates, already)
  {
    hide Novel;
    FirstIsNovel(candidates, already);
    forall p | 0 <= p < |candidates| ensures p in idx <==> Novel(candidates, already, p) {
      if p > 0 {
        NovelFromNext(candidates, already, p);
      }
    }
  }

  /** Positions in a list, in the list with one more element in front. */
  lemma PickedBehind(c: Citation, rest: seq<Citation>, picked: seq<Citation>, later: seq<nat>)
    requires AscendingBelow(later, |rest|) && PickedAt(picked, rest, later)
    ensures AscendingBelow(Shifted(later), |rest| + 1) && PickedAt(picked, [c] + rest, Shifted(later))
    ensures forall p: nat :: p in Shifted(later) <==> p > 0 && p - 1 in later
  {
    forall p: nat ensures p in Shifted(later) <==> p > 0 && p - 1 in later {
      ShiftedMember(later, p);
    }
  }

  lemma PickedInFront(all: seq<Citation>, picked: seq<Citation>, idx: seq<nat>)
    requires all != [] && AscendingBelow(idx, |all|) && PickedAt(picked, all, idx) && 0 !in idx
    ensures AscendingBelow([0] + idx, |all|) && PickedAt([all[0]] + picked, all, [0] + idx)
  {
  }

  lemma {:induction false} FreshPositions(candidates: seq<Citation>, already: set<string>) returns (idx: seq<nat>)
    ensures NovelPositions(idx, candidates, already) && PickedAt(Fresh(candidates, already), candidates, idx)
  {
    idx := [];
    if candidates != [] {
      hide Novel, PickedAt, Shifted, AscendingBelow;
      var c, rest := candidates[0], candidates[1..];
      assert candidates == [c] + rest;
      var later := FreshPositions(rest, already + {c.sourceId});
      PickedBehind(c, rest, Fresh(rest, already + {c.sourceId}), later);
      idx := Shifted(later);
      if c.sourceId in already {
        assert already + {c.sourceId} == already;
      } else {
        PickedInFront(candidates, Fresh(rest, already + {c.sourceId}), idx);
        idx := [0] + idx;
      }
      NovelBehind(candidates, already, later, idx);
    }
  }

  lemma FirstIsNovel(candidates: seq<Citation>, already: set<string>)
    requires candidates != []
    ensures Novel(candidates, already, 0) <==> candidates[0].sourceId !in already
  {
  }

  /** After the hop: the plain citations, and then the first k candidates that are new, in the
      order of the candidates. */
  lemma {:induction false} HopCitationsExact(pool: seq<Hit>, k: nat, hop: Hop) returns (idx: seq<nat>)
    requires pool != [] && k > 0
    ensures var plain, rich := Retrieved(pool, k, false, hop), Retrieved(pool, k, true, hop);
            var candidates := AllLinked(plain, hop);
            && NovelPositions(idx, candidates, set c | c in plain :: c.sourceId)
            && plain <= rich && |rich| - |plain| == (if |idx| < k then |idx| else k)
            && forall i :: |plain| <= i < |rich| ==> rich[i] == candidates[idx[i - |plain|]]
  {
    hide AllLinked, Fresh, VectorCitations, NovelPositions;
    NonEmptyVector(pool, k);
    var plain := Retrieved(pool, k, false, hop);
    idx := FreshPositions(AllLinked(plain, hop), Ids(plain));
  }

  lemma NonEmptyVector(pool: seq<Hit>, k: nat)
    requires pool != [] && k > 0
    ensures VectorCitations(pool, k) != []
  {
    hide Groups, Trim;
    TrimNonEmpty(pool);
    SomeGroup(Trim(pool));
  }
}
