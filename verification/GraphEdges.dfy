/** Which relationships are derived and what a neighbour is, said from the nodes and edges alone. */
module GraphEdges {
  import opened Prelude
  import opened Graph

  // ------------------------------------------------------------ derived relationships

  predicate Known(nodes: seq<Node>, id: string) {
    exists n :: n in nodes && n.id == id
  }

  lemma KnownIff(nodes: seq<Node>, id: string)
    ensures Has(nodes, id) <==> Known(nodes, id)
  {
    if n :| n in nodes && n.id == id {
      var k :| 0 <= k < |nodes| && nodes[k] == n;
    }
  }

  lemma {:induction false} RefsMember(client: Node, refs: seq<string>, nodes: seq<Node>, r: Rel)
    ensures r in CreatedFrom(client, refs, nodes) <==>
            r.from == client.id && r.to in refs && r.kind == "CREATED_FROM" && Known(nodes, r.to)
  {
    hide Has, Known;
    if refs != [] {
      var init, last := refs[..|refs| - 1], refs[|refs| - 1];
      assert refs == init + [last];
      RefsMember(client, init, nodes, r);
      KnownIff(nodes, last);
    }
  }

  lemma {:induction false} CreatedFromMember(some: seq<Node>, nodes: seq<Node>, r: Rel)
    ensures r in AllCreatedFrom(some, nodes) <==>
            exists n :: n in some && n.tag == "ClientProfile" && r.to in n.refs && Known(nodes, r.to)
                        && r == Rel(n.id, r.to, "CREATED_FROM")
  {
    hide CreatedFrom, Known;
    if some != [] {
      var init, last := some[..|some| - 1], some[|some| - 1];
      assert some == init + [last];
      CreatedFromMember(init, nodes, r);
      RefsMember(last, last.refs, nodes, r);
    }
  }

  lemma {:induction false} SupportsMember(some: seq<Node>, nodes: seq<Node>, r: Rel)
    ensures r in AllSupports(some, nodes) <==>
            exists n :: n in some && n.tag == "Evidence" && n.docId == Some(r.to) && Known(nodes, r.to)
                        && r == Rel(n.id, r.to, "SUPPORTS")
  {
    hide Has, Known;
    if some != [] {
      var init, last := some[..|some| - 1], some[|some| - 1];
      assert some == init + [last];
      SupportsMember(init, nodes, r);
      if last.docId.Some? {
        KnownIff(nodes, last.docId.value);
      }
    }
  }

  lemma {:induction false} OwnedByMember(some: seq<Node>, nodes: seq<Node>, r: Rel)
    ensures r in AllOwnedBy(some, nodes) <==>
            exists n :: n in some && n.tag == "Entity" && n.clientId == Some(r.from) && Known(nodes, r.from)
                        && r == Rel(r.from, n.id, "OWNED_BY")
  {
    hide Has, Known;
    if some != [] {
      var init, last := some[..|some| - 1], some[|some| - 1];
      assert some == init + [last];
      OwnedByMember(init, nodes, r);
      if last.clientId.Some? {
        KnownIff(nodes, last.clientId.value);
      }
    }
  }

  /** A policy cites the regulation it names; the empty name names none. */
  predicate CitesOf(nodes: seq<Node>, r: Rel) {
    r.kind == "CITES" && r.to != "" && Known(nodes, r.to)
    && exists n :: n in nodes && n.tag == "Policy" && n.id == r.from && n.regulationId == Some(r.to)
  }

  lemma CitesExact(nodes: seq<Node>, r: Rel)
    ensures r in AllCites(nodes, nodes) <==> CitesOf(nodes, r)
  {
    hide Has, AllCites, Known;
    CitesMember(nodes, nodes, r);
    KnownIff(nodes, r.to);
  }

  /** A regulation applies to the clients of its jurisdiction, one of the EU to all. */
  predicate AppliesOf(nodes: seq<Node>, r: Rel) {
    r.kind == "APPLIES_TO"
    && exists g, c :: g in nodes && c in nodes && g.tag == "Regulation" && c.tag == "ClientProfile"
                      && g.id == r.from && c.id == r.to
                      && (g.jurisdiction == c.country || g.jurisdiction == Some("EU"))
  }

  lemma {:induction false} AppliesExact(nodes: seq<Node>, r: Rel)
    ensures r in AllAppliesTo(nodes, nodes) <==> AppliesOf(nodes, r)
  {
    hide AllAppliesTo, AppliesTo;
    AllAppliesMember(nodes, nodes, r);
    forall g ensures r in AppliesTo(g, nodes) <==>
                     exists n :: n in nodes && n.tag == "ClientProfile" && Applies(g, n)
                                 && r == Rel(g.id, n.id, "APPLIES_TO")
    {
      AppliesMember(g, nodes, r);
    }
  }

  /** The five kinds of relationships that loading derives from the nodes, and no others. */
  lemma {:induction false} DerivedExact(nodes: seq<Node>, r: Rel)
    ensures r in Derived(nodes) <==>
            || (exists n :: n in nodes && n.tag == "ClientProfile" && r.to in n.refs && Known(nodes, r.to)
                            && r == Rel(n.id, r.to, "CREATED_FROM"))
            || (exists n :: n in nodes && n.tag == "Evidence" && n.docId == Some(r.to) && Known(nodes, r.to)
                            && r == Rel(n.id, r.to, "SUPPORTS"))
            || CitesOf(nodes, r)
            || AppliesOf(nodes, r)
            || (exists n :: n in nodes && n.tag == "Entity" && n.clientId == Some(r.from) && Known(nodes, r.from)
                            && r == Rel(r.from, n.id, "OWNED_BY"))
  {
    hide AllCreatedFrom, AllSupports, AllCites, AllAppliesTo, AllOwnedBy, Known, CitesOf, AppliesOf;
    CreatedFromMember(nodes, nodes, r);
    SupportsMember(nodes, nodes, r);
    CitesExact(nodes, r);
    AppliesExact(nodes, r);
    OwnedByMember(nodes, nodes, r);
  }

  /** An ingested document: its node under its id, a link from its client if one is named, and one
      from each piece of evidence, behind the relationships there were. */
  lemma {:induction false} DocumentExact(s: Store, doc: Node, client: Option<string>, evidence: seq<string>, id: string)
    ensures var after := DocumentAdded(s, doc, client, evidence);
            && Lookup(after.nodes, id) == (if id == doc.id then Some(doc) else Lookup(s.nodes, id))
            && s.relationships <= after.relationships
            && var added := after.relationships[|s.relationships|..];
               var named := if client.Some? && client.value != "" then [client.value] else [];
               && |added| == |named| + |evidence|
               && (named != [] ==> added[0] == Rel(named[0], doc.id, "CREATED_FROM"))
               && forall i :: 0 <= i < |evidence| ==> added[|named| + i] == Rel(evidence[i], doc.id, "SUPPORTS")
  {
    hide Lookup, Upsert;
    LookupAfterUpsert(s.nodes, doc, id);
  }

  // ------------------------------------------------------------ neighbours

  /** The relationship joins `id` to the source, in either direction. */
  predicate Joins(r: Rel, source: string, id: string) {
    (r.from == source && r.to == id) || (r.from != source && r.to == source && r.from == id)
  }

  lemma JoinsIff(r: Rel, source: string, id: string)
    ensures Joins(r, source, id) <==> Adjacent(r, source) && OtherEnd(r, source) == id
  {
  }

  /** The first relationship that joins it has the kind of the neighbour, the first node with its
      id the text and the tag. */
  ghost predicate FoundBy(n: Neighbour, rels: seq<Rel>, nodes: seq<Node>, source: string, i: nat)
    requires i < |rels|
  {
    && Joins(rels[i], source, n.id) && (forall j :: 0 <= j < i ==> !Joins(rels[j], source, n.id))
    && n.relType == rels[i].kind
    && exists k :: 0 <= k < |nodes| && nodes[k].id == n.id && (forall l :: 0 <= l < k ==> nodes[l].id != n.id)
                   && n.text == nodes[k].text && n.tag == nodes[k].tag && n.text != ""
                   && n.tag in {"Regulation", "Policy", "Evidence", "Document"}
  }

  lemma NodeFound(nodes: seq<Node>, id: string)
    requires ContentBearing(nodes, id)
    ensures var node := Lookup(nodes, id).value;
            && node.text != "" && node.tag in {"Regulation", "Policy", "Evidence", "Document"}
            && exists k :: 0 <= k < |nodes| && nodes[k] == node && node.id == id
                           && forall l :: 0 <= l < k ==> nodes[l].id != id
  {
    assert nodes[IndexOf(nodes, id)] == Lookup(nodes, id).value;
  }

  lemma FoundByLonger(n: Neighbour, rels: seq<Rel>, nodes: seq<Node>, source: string, i: nat, r: Rel)
    requires i < |rels| && FoundBy(n, rels, nodes, source, i)
    ensures FoundBy(n, rels + [r], nodes, source, i)
  {
    hide Joins;
  }

  /** Each neighbour's text and tag are those of its node, its relation that of the first edge to
      it, and the neighbours stand in the order of these edges. */
  lemma {:induction false} NeighboursInOrder(rels: seq<Rel>, nodes: seq<Node>, source: string) returns (idx: seq<nat>)
    ensures var ns := Neighbours(rels, nodes, source);
            && |idx| == |ns|
            && (forall a :: 0 <= a < |ns| ==> idx[a] < |rels| && FoundBy(ns[a], rels, nodes, source, idx[a]))
            && forall a, b :: 0 <= a < b < |ns| ==> idx[a] < idx[b]
  {
    hide Adjacent, OtherEnd, ContentBearing, Joins, Lookup, FoundBy;
    idx := [];
    if rels != [] {
      var init, r, last := rels[..|rels| - 1], rels[|rels| - 1], |rels| - 1;
      assert rels == init + [r];
      var ns, found := Neighbours(rels, nodes, source), Neighbours(init, nodes, source);
      idx := NeighboursInOrder(init, nodes, source);
      forall a | 0 <= a < |found| ensures FoundBy(found[a], rels, nodes, source, idx[a]) {
        FoundByLonger(found[a], init, nodes, source, idx[a], r);
      }
      if ns != found {
        LastFound(init, r, nodes, source);
        idx := idx + [last];
      }
    }
  }

  lemma {:induction false} LastFound(init: seq<Rel>, r: Rel, nodes: seq<Node>, source: string)
    requires var id := OtherEnd(r, source);
             && Adjacent(r, source) && id != "" && ContentBearing(nodes, id)
             && id !in NeighbourIds(Neighbours(init, nodes, source))
    ensures var id := OtherEnd(r, source);
            FoundBy(Neighbour(id, Lookup(nodes, id).value.text, Lookup(nodes, id).value.tag, r.kind),
                    init + [r], nodes, source, |init|)
  {
    hide Neighbours, NeighbourIds, Lookup, ContentBearing;
    var id := OtherEnd(r, source);
    NeighboursExact(init, nodes, source, id);
    NodeFound(nodes, id);
    forall j | 0 <= j < |init| ensures !Joins(init[j], source, id) {
      JoinsIff(init[j], source, id);
    }
    JoinsIff(r, source, id);
  }
}
