/** The in-memory knowledge graph: derived relationships, the two-hop policy join and the
    one-hop neighbourhood. */
module Graph {
  import opened Prelude
  import opened Keyed

  /** A node with the columns the joins read. `id` is the value of its own id column, which is
      also its key; `jurisdiction` is what `get("jurisdiction", "")` returns. */
  datatype Node = Node(
    id: string,
    tag: string,
    country: Option<string>,
    refs: seq<string>,
    docId: Option<string>,
    regulationId: Option<string>,
    jurisdiction: Option<string>,
    clientId: Option<string>,
    text: string)

  datatype Rel = Rel(from: string, to: string, kind: string)

  datatype Neighbour = Neighbour(id: string, text: string, tag: string, relType: string)

  // ------------------------------------------------------------ the node dictionary

  const NODE_ID: Node -> string := (n: Node) => n.id

  /** The position of a key in insertion order; the size when it is absent. */
  function IndexOf(nodes: seq<Node>, id: string): (k: nat)
    ensures k <= |nodes|
    ensures k < |nodes| ==> nodes[k].id == id
    ensures forall i :: 0 <= i < k ==> nodes[i].id != id
  {
    IndexBy(NODE_ID, nodes, id)
  }

  predicate Has(nodes: seq<Node>, id: string) {
    IndexOf(nodes, id) < |nodes|
  }

  predicate HasKey(nodes: seq<Node>, id: Option<string>) {
    id.Some? && Has(nodes, id.value)
  }

  /** `nodes[node.id] = node`: a known key keeps its place. */
  function Upsert(nodes: seq<Node>, node: Node): seq<Node> {
    UpsertBy(NODE_ID, nodes, node)
  }

  function UpsertAll(nodes: seq<Node>, rows: seq<Node>): seq<Node> {
    if rows == [] then nodes else Upsert(UpsertAll(nodes, rows[..|rows| - 1]), rows[|rows| - 1])
  }

  predicate DistinctKeys(nodes: seq<Node>) {
    forall i, j :: 0 <= i < j < |nodes| ==> nodes[i].id != nodes[j].id
  }

  /** The last row with this id, if any: the one a load leaves in the dictionary. */
  function LastRow(rows: seq<Node>, id: string): Option<Node> {
    if rows == [] then None
    else if rows[|rows| - 1].id == id then Some(rows[|rows| - 1])
    else LastRow(rows[..|rows| - 1], id)
  }

  function Lookup(nodes: seq<Node>, id: string): Option<Node> {
    if Has(nodes, id) then Some(nodes[IndexOf(nodes, id)]) else None
  }

  // ------------------------------------------------------------ derived relationships

  function CreatedFrom(client: Node, refs: seq<string>, nodes: seq<Node>): seq<Rel> {
    if refs == [] then []
    else
      CreatedFrom(client, refs[..|refs| - 1], nodes)
      + if Has(nodes, refs[|refs| - 1]) then [Rel(client.id, refs[|refs| - 1], "CREATED_FROM")] else []
  }

  function AllCreatedFrom(some: seq<Node>, nodes: seq<Node>): seq<Rel> {
    if some == [] then []
    else
      var n := some[|some| - 1];
      AllCreatedFrom(some[..|some| - 1], nodes) + if n.tag == "ClientProfile" then CreatedFrom(n, n.refs, nodes) else []
  }

  function AllSupports(some: seq<Node>, nodes: seq<Node>): seq<Rel> {
    if some == [] then []
    else
      var n := some[|some| - 1];
      AllSupports(some[..|some| - 1], nodes)
      + if n.tag == "Evidence" && HasKey(nodes, n.docId) then [Rel(n.id, n.docId.value, "SUPPORTS")] else []
  }

  function AllCites(some: seq<Node>, nodes: seq<Node>): seq<Rel> {
    if some == [] then []
    else
      var n := some[|some| - 1];
      AllCites(some[..|some| - 1], nodes)
      + if n.tag == "Policy" && HasKey(nodes, n.regulationId) && n.regulationId.value != ""
        then [Rel(n.id, n.regulationId.value, "CITES")] else []
  }

  predicate Applies(regulation: Node, client: Node) {
    regulation.jurisdiction == client.country || regulation.jurisdiction == Some("EU")
  }

  function AppliesTo(regulation: Node, some: seq<Node>): seq<Rel> {
    if some == [] then []
    else
      var n := some[|some| - 1];
      AppliesTo(regulation, some[..|some| - 1])
      + if n.tag == "ClientProfile" && Applies(regulation, n) then [Rel(regulation.id, n.id, "APPLIES_TO")] else []
  }

  function AllAppliesTo(some: seq<Node>, nodes: seq<Node>): seq<Rel> {
    if some == [] then []
    else
      var n := some[|some| - 1];
      AllAppliesTo(some[..|some| - 1], nodes) + if n.tag == "Regulation" then AppliesTo(n, nodes) else []
  }

  function AllOwnedBy(some: seq<Node>, nodes: seq<Node>): seq<Rel> {
    if some == [] then []
    else
      var n := some[|some| - 1];
      AllOwnedBy(some[..|some| - 1], nodes)
      + if n.tag == "Entity" && HasKey(nodes, n.clientId) then [Rel(n.clientId.value, n.id, "OWNED_BY")] else []
  }

  /** Everything `_build_relationships` appends. */
  function Derived(nodes: seq<Node>): seq<Rel> {
    AllCreatedFrom(nodes, nodes) + AllSupports(nodes, nodes) + AllCites(nodes, nodes)
    + AllAppliesTo(nodes, nodes) + AllOwnedBy(nodes, nodes)
  }

  function SupportsEdges(evidence: seq<string>, docId: string): seq<Rel> {
    seq(|evidence|, i requires 0 <= i < |evidence| => Rel(evidence[i], docId, "SUPPORTS"))
  }

  datatype Store = Store(nodes: seq<Node>, relationships: seq<Rel>)

  function Loaded(s: Store, rows: seq<Node>): Store {
    var nodes := UpsertAll(s.nodes, rows);
    Store(nodes, s.relationships + Derived(nodes))
  }

  function DocumentAdded(s: Store, doc: Node, client: Option<string>, evidence: seq<string>): Store {
    Store(
      Upsert(s.nodes, doc),
      s.relationships
      + (if client.Some? && client.value != "" then [Rel(client.value, doc.id, "CREATED_FROM")] else [])
      + SupportsEdges(evidence, doc.id))
  }

  predicate Adjacent(r: Rel, source: string) {
    r.from == source || r.to == source
  }

  function OtherEnd(r: Rel, source: string): string {
    if r.from == source then r.to else r.from
  }

  predicate ContentBearing(nodes: seq<Node>, id: string) {
    var n := Lookup(nodes, id);
    n.Some? && n.value.tag in {"Regulation", "Policy", "Evidence", "Document"} && n.value.text != ""
  }

  function NeighbourIds(ns: seq<Neighbour>): set<string> {
    set n | n in ns :: n.id
  }

  /** One hop from `source` in either direction, each neighbour once, in edge order. */
  function Neighbours(rels: seq<Rel>, nodes: seq<Node>, source: string): seq<Neighbour> {
    if rels == [] then []
    else
      var found, r := Neighbours(rels[..|rels| - 1], nodes, source), rels[|rels| - 1];
      var id := OtherEnd(r, source);
      if Adjacent(r, source) && id != "" && id !in NeighbourIds(found) && ContentBearing(nodes, id)
      then found + [Neighbour(id, Lookup(nodes, id).value.text, Lookup(nodes, id).value.tag, r.kind)]
      else found
  }

  function Froms(rels: seq<Rel>, kind: string, targets: set<string>): set<string> {
    set r | r in rels && r.kind == kind && r.to in targets :: r.from
  }

  class GraphStore {
    var nodes: seq<Node>
    var relationships: seq<Rel>

    function View(): Store
      reads this
    {
      Store(nodes, relationships)
    }

    constructor ()
      ensures View() == Store([], [])
    {
      nodes, relationships := [], [];
    }

    /** `rows` are the CSV rows of all files in loading order, rows without an id dropped. */
    method LoadDemoData(rows: seq<Node>)
      modifies this
      ensures View() == Loaded(old(View()), rows)
    {
      for i := 0 to |rows|
        invariant nodes == UpsertAll(old(nodes), rows[..i]) && relationships == old(relationships)
      {
        assert rows[..i + 1][..i] == rows[..i];
        nodes := Upsert(nodes, rows[i]);
      }
      assert rows[..|rows|] == rows;
      BuildRelationships();
    }

    method BuildRelationships()
      modifies this`relationships
      ensures relationships == old(relationships) + Derived(nodes)
    {
      hide AllCreatedFrom, AllSupports, AllCites, AllAppliesTo, AllOwnedBy;
      var built := BuildCreated();
      relationships := relationships + built;
      built := BuildSingle();
      relationships := relationships + built;
      built := BuildApplies();
      relationships := relationships + built;
      built := BuildOwned();
      relationships := relationships + built;
    }

    method BuildCreated() returns (built: seq<Rel>)
      ensures built == AllCreatedFrom(nodes, nodes)
    {
      hide Has;
      built := [];
      for i := 0 to |nodes|
        invariant built == AllCreatedFrom(nodes[..i], nodes)
      {
        assert nodes[..i + 1][..i] == nodes[..i];
        if nodes[i].tag == "ClientProfile" {
          var refs := nodes[i].refs;
          ghost var before := built;
          for j := 0 to |refs|
            invariant built == before + CreatedFrom(nodes[i], refs[..j], nodes)
          {
            assert refs[..j + 1][..j] == refs[..j];
            if Has(nodes, refs[j]) {
              built := built + [Rel(nodes[i].id, refs[j], "CREATED_FROM")];
            }
          }
          assert refs[..|refs|] == refs;
        }
      }
      assert nodes[..|nodes|] == nodes;
    }

    /** The evidence and policy loops. */
    method BuildSingle() returns (built: seq<Rel>)
      ensures built == AllSupports(nodes, nodes) + AllCites(nodes, nodes)
    {
      hide Has;
      var supports: seq<Rel>, cites: seq<Rel> := [], [];
      for i := 0 to |nodes|
        invariant supports == AllSupports(nodes[..i], nodes)
      {
        assert nodes[..i + 1][..i] == nodes[..i];
        if nodes[i].tag == "Evidence" && HasKey(nodes, nodes[i].docId) {
          supports := supports + [Rel(nodes[i].id, nodes[i].docId.value, "SUPPORTS")];
        }
      }
      for i := 0 to |nodes|
        invariant cites == AllCites(nodes[..i], nodes)
      {
        assert nodes[..i + 1][..i] == nodes[..i];
        if nodes[i].tag == "Policy" && HasKey(nodes, nodes[i].regulationId) && nodes[i].regulationId.value != "" {
          cites := cites + [Rel(nodes[i].id, nodes[i].regulationId.value, "CITES")];
        }
      }
      assert nodes[..|nodes|] == nodes;
      return supports + cites;
    }

    method BuildApplies() returns (built: seq<Rel>)
      ensures built == AllAppliesTo(nodes, nodes)
    {
      built := [];
      for i := 0 to |nodes|
        invariant built == AllAppliesTo(nodes[..i], nodes)
      {
        assert nodes[..i + 1][..i] == nodes[..i];
        if nodes[i].tag == "Regulation" {
          ghost var before := built;
          for j := 0 to |nodes|
            invariant built == before + AppliesTo(nodes[i], nodes[..j])
          {
            assert nodes[..j + 1][..j] == nodes[..j];
            if nodes[j].tag == "ClientProfile" && Applies(nodes[i], nodes[j]) {
              built := built + [Rel(nodes[i].id, nodes[j].id, "APPLIES_TO")];
            }
          }
          assert nodes[..|nodes|] == nodes;
        }
      }
      assert nodes[..|nodes|] == nodes;
    }

    method BuildOwned() returns (built: seq<Rel>)
      ensures built == AllOwnedBy(nodes, nodes)
    {
      hide Has;
      built := [];
      for i := 0 to |nodes|
        invariant built == AllOwnedBy(nodes[..i], nodes)
      {
        assert nodes[..i + 1][..i] == nodes[..i];
        if nodes[i].tag == "Entity" && HasKey(nodes, nodes[i].clientId) {
          built := built + [Rel(nodes[i].clientId.value, nodes[i].id, "OWNED_BY")];
        }
      }
      assert nodes[..|nodes|] == nodes;
    }

    method AddDocument(doc: Node, client: Option<string>, evidence: seq<string>)
      modifies this
      ensures View() == DocumentAdded(old(View()), doc, client, evidence)
    {
      nodes := Upsert(nodes, doc);
      if client.Some? && client.value != "" {
        relationships := relationships + [Rel(client.value, doc.id, "CREATED_FROM")];
      }
      ghost var before := relationships;
      for i := 0 to |evidence|
        invariant nodes == Upsert(old(nodes), doc)
        invariant relationships == before + SupportsEdges(evidence, doc.id)[..i]
      {
        relationships := relationships + [Rel(evidence[i], doc.id, "SUPPORTS")];
      }
    }

    /** The ids of the related policies; the code returns their nodes in no particular order. */
    method GetRelatedPolicies(client: string) returns (policies: set<string>)
      ensures policies == RelatedPolicies(View(), client)
    {
      var regulationIds := Froms(relationships, "APPLIES_TO", {client});
      var policyIds := Froms(relationships, "CITES", regulationIds);
      return set p | p in policyIds && Has(nodes, p);
    }

    method GraphNeighbors(source: string) returns (neighbours: seq<Neighbour>)
      ensures neighbours == Neighbours(relationships, nodes, source)
    {
      neighbours := [];
      var seen: set<string> := {};
      for i := 0 to |relationships|
        invariant neighbours == Neighbours(relationships[..i], nodes, source)
        invariant seen == NeighbourIds(neighbours)
      {
        assert relationships[..i + 1][..i] == relationships[..i];
        var r := relationships[i];
        if Adjacent(r, source) {
          var id := OtherEnd(r, source);
          if id != "" && id !in seen && ContentBearing(nodes, id) {
            var node := Lookup(nodes, id).value;
            seen := seen + {id};
            neighbours := neighbours + [Neighbour(id, node.text, node.tag, r.kind)];
          }
        }
      }
      assert relationships[..|relationships|] == relationships;
    }
  }

  function RelatedPolicies(s: Store, client: string): set<string> {
    set p | p in Froms(s.relationships, "CITES", Froms(s.relationships, "APPLIES_TO", {client})) && Has(s.nodes, p)
  }

  // ------------------------------------------------------------ what the edges mean

  lemma {:induction false} CitesMember(some: seq<Node>, nodes: seq<Node>, r: Rel)
    ensures r in AllCites(some, nodes) <==>
            exists n :: n in some && n.tag == "Policy" && HasKey(nodes, n.regulationId) && n.regulationId.value != ""
                        && r == Rel(n.id, n.regulationId.value, "CITES")
  {
    hide Has;
    if some != [] {
      assert some == some[..|some| - 1] + [some[|some| - 1]];
      CitesMember(some[..|some| - 1], nodes, r);
    }
  }

  lemma {:induction false} AppliesMember(regulation: Node, some: seq<Node>, r: Rel)
    ensures r in AppliesTo(regulation, some) <==>
            exists n :: n in some && n.tag == "ClientProfile" && Applies(regulation, n)
                        && r == Rel(regulation.id, n.id, "APPLIES_TO")
  {
    hide Applies;
    if some != [] {
      assert some == some[..|some| - 1] + [some[|some| - 1]];
      AppliesMember(regulation, some[..|some| - 1], r);
    }
  }

  lemma {:induction false} AllAppliesMember(some: seq<Node>, nodes: seq<Node>, r: Rel)
    ensures r in AllAppliesTo(some, nodes) <==>
            exists g :: g in some && g.tag == "Regulation" && r in AppliesTo(g, nodes)
  {
    hide AppliesTo;
    if some != [] {
      assert some == some[..|some| - 1] + [some[|some| - 1]];
      AllAppliesMember(some[..|some| - 1], nodes, r);
    }
  }

  lemma {:induction false} OtherKinds(some: seq<Node>, nodes: seq<Node>)
    ensures forall r :: r in AllCreatedFrom(some, nodes) ==> r.kind == "CREATED_FROM"
    ensures forall r :: r in AllSupports(some, nodes) ==> r.kind == "SUPPORTS"
    ensures forall r :: r in AllOwnedBy(some, nodes) ==> r.kind == "OWNED_BY"
    ensures forall r :: r in AllCites(some, nodes) ==> r.kind == "CITES"
    ensures forall r :: r in AllAppliesTo(some, nodes) ==> r.kind == "APPLIES_TO"
  {
    hide Has, Applies;
    if some != [] {
      OtherKinds(some[..|some| - 1], nodes);
      CreatedKinds(some[|some| - 1], some[|some| - 1].refs, nodes);
      AppliesKinds(some[|some| - 1], nodes);
    }
  }

  lemma {:induction false} CreatedKinds(client: Node, refs: seq<string>, nodes: seq<Node>)
    ensures forall r :: r in CreatedFrom(client, refs, nodes) ==> r.kind == "CREATED_FROM"
  {
    if refs != [] {
      CreatedKinds(client, refs[..|refs| - 1], nodes);
    }
  }

  lemma {:induction false} AppliesKinds(regulation: Node, some: seq<Node>)
    ensures forall r :: r in AppliesTo(regulation, some) ==> r.kind == "APPLIES_TO"
  {
    if some != [] {
      AppliesKinds(regulation, some[..|some| - 1]);
    }
  }

  /** An APPLIES_TO edge the nodes call for. */
  ghost predicate ShouldApply(nodes: seq<Node>, regulation: string, client: string) {
    exists g, c :: g in nodes && c in nodes && g.id == regulation && c.id == client
                   && g.tag == "Regulation" && c.tag == "ClientProfile" && Applies(g, c)
  }

  ghost predicate IsPolicyUnder(nodes: seq<Node>, policy: string, regulation: string) {
    exists p :: p in nodes && p.id == policy && p.tag == "Policy" && p.regulationId == Some(regulation)
  }

  /** The relationships carry exactly the APPLIES_TO edges the nodes call for, only CITES edges
      the nodes call for, and all of those that lead to a regulation. */
  ghost predicate EdgesOk(s: Store) {
    && (forall r :: r in s.relationships && r.kind == "APPLIES_TO" ==> ShouldApply(s.nodes, r.from, r.to))
    && (forall r :: r in s.relationships && r.kind == "CITES" ==> IsPolicyUnder(s.nodes, r.from, r.to))
    && (forall g, c :: ShouldApply(s.nodes, g, c) ==> Rel(g, c, "APPLIES_TO") in s.relationships)
    && (forall p, g, c :: IsPolicyUnder(s.nodes, p, g) && ShouldApply(s.nodes, g, c) ==>
          Rel(p, g, "CITES") in s.relationships)
  }

  /** The join, declaratively: the policies that name a regulation which applies to the client. */
  ghost predicate Governs(nodes: seq<Node>, policy: string, client: string) {
    exists g :: IsPolicyUnder(nodes, policy, g) && ShouldApply(nodes, g, client)
  }

  lemma MemberIsKnown(nodes: seq<Node>, n: Node)
    requires n in nodes
    ensures Has(nodes, n.id)
  {
  }

  /** The two-hop join returns exactly the governing policies. */
  lemma JoinIsExact(s: Store, client: string, policy: string)
    requires EdgesOk(s)
    ensures policy in RelatedPolicies(s, client) <==> Governs(s.nodes, policy, client)
  {
    hide Has, ShouldApply;
    if policy in RelatedPolicies(s, client) {
      var cites :| cites in s.relationships && cites.kind == "CITES" && cites.from == policy
                   && cites.to in Froms(s.relationships, "APPLIES_TO", {client});
      assert ShouldApply(s.nodes, cites.to, client);
      assert IsPolicyUnder(s.nodes, policy, cites.to);
    }
    if Governs(s.nodes, policy, client) {
      var g :| IsPolicyUnder(s.nodes, policy, g) && ShouldApply(s.nodes, g, client);
      assert Rel(g, client, "APPLIES_TO") in s.relationships;
      assert Rel(policy, g, "CITES") in s.relationships;
      var p :| p in s.nodes && p.id == policy;
      MemberIsKnown(s.nodes, p);
    }
  }

  // ------------------------------------------------------------ whole runs of a store

  predicate IsCore(n: Node) {
    n.tag == "Policy" || n.tag == "Regulation" || n.tag == "ClientProfile"
  }

  /** The nodes that matter to the join are those the rows leave behind. */
  ghost predicate CoreFromRows(nodes: seq<Node>, rows: seq<Node>) {
    forall n :: IsCore(n) ==> (n in nodes <==> LastRow(rows, n.id) == Some(n))
  }

  predicate NonEmptyIds(rows: seq<Node>) {
    forall i :: 0 <= i < |rows| ==> rows[i].id != ""
  }

  ghost predicate SoundEdges(rels: seq<Rel>, nodes: seq<Node>) {
    && (forall r :: r in rels && r.kind == "APPLIES_TO" ==> ShouldApply(nodes, r.from, r.to))
    && (forall r :: r in rels && r.kind == "CITES" ==> IsPolicyUnder(nodes, r.from, r.to))
  }

  lemma DerivedSound(nodes: seq<Node>)
    ensures SoundEdges(Derived(nodes), nodes)
  {
    hide AllCreatedFrom, AllSupports, AllCites, AllAppliesTo, AllOwnedBy, AppliesTo, Applies, Has;
    OtherKinds(nodes, nodes);
    forall r | r in Derived(nodes) && r.kind == "APPLIES_TO" ensures ShouldApply(nodes, r.from, r.to) {
      AllAppliesMember(nodes, nodes, r);
      var g :| g in nodes && g.tag == "Regulation" && r in AppliesTo(g, nodes);
      AppliesMember(g, nodes, r);
    }
    forall r | r in Derived(nodes) && r.kind == "CITES" ensures IsPolicyUnder(nodes, r.from, r.to) {
      CitesMember(nodes, nodes, r);
    }
  }

  lemma DerivedApplies(nodes: seq<Node>, g: string, c: string)
    requires ShouldApply(nodes, g, c)
    ensures Rel(g, c, "APPLIES_TO") in Derived(nodes)
  {
    hide AllCreatedFrom, AllSupports, AllCites, AllAppliesTo, AllOwnedBy, AppliesTo, Applies;
    var gn, cn :| gn in nodes && cn in nodes && gn.id == g && cn.id == c
                  && gn.tag == "Regulation" && cn.tag == "ClientProfile" && Applies(gn, cn);
    var r := Rel(g, c, "APPLIES_TO");
    AppliesMember(gn, nodes, r);
    AllAppliesMember(nodes, nodes, r);
  }

  lemma DerivedCites(nodes: seq<Node>, p: string, g: string, c: string)
    requires NonEmptyIds(nodes) && IsPolicyUnder(nodes, p, g) && ShouldApply(nodes, g, c)
    ensures Rel(p, g, "CITES") in Derived(nodes)
  {
    hide AllCreatedFrom, AllSupports, AllCites, AllAppliesTo, AllOwnedBy, Applies, Has;
    var gn :| gn in nodes && gn.id == g;
    MemberIsKnown(nodes, gn);
    CitesMember(nodes, nodes, Rel(p, g, "CITES"));
  }

  /** Rebuilding the relationships makes the edges right, provided the old ones were sound. */
  lemma RebuildMakesEdgesOk(rels: seq<Rel>, nodes: seq<Node>)
    requires SoundEdges(rels, nodes) && NonEmptyIds(nodes)
    ensures EdgesOk(Store(nodes, rels + Derived(nodes)))
  {
    hide Derived, ShouldApply, IsPolicyUnder;
    DerivedSound(nodes);
    forall g, c | ShouldApply(nodes, g, c) ensures Rel(g, c, "APPLIES_TO") in rels + Derived(nodes) {
      DerivedApplies(nodes, g, c);
    }
    forall p, g, c | IsPolicyUnder(nodes, p, g) && ShouldApply(nodes, g, c)
      ensures Rel(p, g, "CITES") in rels + Derived(nodes)
    {
      DerivedCites(nodes, p, g, c);
    }
  }

  lemma SameCoreSameEdges(a: seq<Node>, b: seq<Node>, rows: seq<Node>, x: string, y: string)
    requires CoreFromRows(a, rows) && CoreFromRows(b, rows)
    ensures ShouldApply(a, x, y) <==> ShouldApply(b, x, y)
    ensures IsPolicyUnder(a, x, y) <==> IsPolicyUnder(b, x, y)
  {
    hide Applies, LastRow;
    assert forall n :: IsCore(n) ==> (n in a <==> n in b);
  }

  // ------------------------------------------------------------ the dictionary under loads

  lemma LookupAfterUpsert(nodes: seq<Node>, node: Node, id: string)
    ensures Lookup(Upsert(nodes, node), id) == if id == node.id then Some(node) else Lookup(nodes, id)
    ensures DistinctKeys(nodes) ==> DistinctKeys(Upsert(nodes, node))
    ensures NonEmptyIds(nodes) && node.id != "" ==> NonEmptyIds(Upsert(nodes, node))
  {
    hide IndexOf;
    var after, k := Upsert(nodes, node), IndexOf(nodes, id);
    assert forall i :: 0 <= i < |nodes| ==> after[i].id == nodes[i].id;
    assert forall i :: 0 <= i < |nodes| && nodes[i].id != node.id ==> after[i] == nodes[i];
    assert after[IndexOf(nodes, node.id)] == node;
    if k < |nodes| {
      assert IndexOf(after, id) == k;
    } else if id == node.id {
      assert IndexOf(after, id) == |nodes|;
    } else {
      assert IndexOf(after, id) == |after|;
    }
  }

  lemma {:induction false} LookupAfterLoad(nodes: seq<Node>, rows: seq<Node>, id: string)
    ensures Lookup(UpsertAll(nodes, rows), id) ==
              if LastRow(rows, id).Some? then LastRow(rows, id) else Lookup(nodes, id)
    ensures DistinctKeys(nodes) ==> DistinctKeys(UpsertAll(nodes, rows))
    ensures NonEmptyIds(nodes) && NonEmptyIds(rows) ==> NonEmptyIds(UpsertAll(nodes, rows))
  {
    hide Lookup, Upsert, DistinctKeys;
    if rows != [] {
      LookupAfterLoad(nodes, rows[..|rows| - 1], id);
      LookupAfterUpsert(UpsertAll(nodes, rows[..|rows| - 1]), rows[|rows| - 1], id);
    }
  }

  lemma MemberIffLookup(nodes: seq<Node>, n: Node)
    requires DistinctKeys(nodes)
    ensures n in nodes <==> Lookup(nodes, n.id) == Some(n)
  {
  }

  datatype Op = Reload | AddDoc(doc: Node, client: Option<string>, evidence: seq<string>)

  /** A document takes no key of another kind of node; it may be one ingested before. */
  predicate Allowed(s: Store, op: Op) {
    op.AddDoc? ==>
      && op.doc.tag == "Document" && op.doc.id != ""
      && (Lookup(s.nodes, op.doc.id).Some? ==> Lookup(s.nodes, op.doc.id).value.tag == "Document")
  }

  function Next(s: Store, op: Op, rows: seq<Node>): Store {
    match op
    case Reload => Loaded(s, rows)
    case AddDoc(doc, client, evidence) => DocumentAdded(s, doc, client, evidence)
  }

  /** The first load, then reloads of the same data and new documents in any order. */
  function Run(ops: seq<Op>, rows: seq<Node>): Store {
    if ops == [] then Loaded(Store([], []), rows) else Next(Run(ops[..|ops| - 1], rows), ops[|ops| - 1], rows)
  }

  predicate Legal(ops: seq<Op>, rows: seq<Node>) {
    ops == []
    || (Legal(ops[..|ops| - 1], rows) && Allowed(Run(ops[..|ops| - 1], rows), ops[|ops| - 1]))
  }

  ghost predicate Inv(s: Store, rows: seq<Node>) {
    && DistinctKeys(s.nodes) && NonEmptyIds(s.nodes)
    && EdgesOk(s)
    && forall id :: if LastRow(rows, id).Some? && LastRow(rows, id).value.tag != "Document"
                    then Lookup(s.nodes, id) == LastRow(rows, id)
                    else Lookup(s.nodes, id).Some? ==> Lookup(s.nodes, id).value.tag == "Document"
  }

  lemma InvMeansCoreFromRows(s: Store, rows: seq<Node>)
    requires Inv(s, rows)
    ensures CoreFromRows(s.nodes, rows)
  {
    hide Lookup, EdgesOk, LastRow, DistinctKeys;
    forall n | IsCore(n) ensures n in s.nodes <==> LastRow(rows, n.id) == Some(n) {
      MemberIffLookup(s.nodes, n);
    }
  }

  lemma LoadKeepsInv(s: Store, rows: seq<Node>)
    requires NonEmptyIds(rows)
    requires s == Store([], []) || Inv(s, rows)
    ensures Inv(Loaded(s, rows), rows)
  {
    var s' := Loaded(s, rows);
    hide Derived, LastRow, DistinctKeys, Lookup, UpsertAll, ShouldApply, IsPolicyUnder;
    forall id
      ensures Lookup(s'.nodes, id) == if LastRow(rows, id).Some? then LastRow(rows, id) else Lookup(s.nodes, id)
    {
      LookupAfterLoad(s.nodes, rows, id);
    }
    LookupAfterLoad(s.nodes, rows, "");
    assert DistinctKeys(s'.nodes) by { EmptyDictionary(); }
    forall id | LastRow(rows, id).None? && Lookup(s'.nodes, id).Some?
      ensures Lookup(s'.nodes, id).value.tag == "Document"
    {
      EmptyDictionary();
    }
    assert SoundEdges(s.relationships, s'.nodes) by {
      if s != Store([], []) {
        KeptEdgesSound(s, s', rows);
      }
    }
    RebuildMakesEdgesOk(s.relationships, s'.nodes);
  }

  lemma EmptyDictionary()
    ensures DistinctKeys([]) && forall id :: Lookup([], id).None?
  {
  }

  lemma KeptEdgesSound(s: Store, s': Store, rows: seq<Node>)
    requires Inv(s, rows) && DistinctKeys(s'.nodes)
    requires forall id :: Lookup(s'.nodes, id) ==
                          if LastRow(rows, id).Some? then LastRow(rows, id) else Lookup(s.nodes, id)
    ensures SoundEdges(s.relationships, s'.nodes)
  {
    InvMeansCoreFromRows(s, rows);
    hide Lookup, LastRow, DistinctKeys, ShouldApply, IsPolicyUnder;
    assert CoreFromRows(s'.nodes, rows) by {
      forall n | IsCore(n) ensures n in s'.nodes <==> LastRow(rows, n.id) == Some(n) {
        MemberIffLookup(s'.nodes, n);
      }
    }
    forall r | r in s.relationships {
      SameCoreSameEdges(s.nodes, s'.nodes, rows, r.from, r.to);
    }
  }

  lemma {:induction false} AddDocKeepsInv(s: Store, op: Op, rows: seq<Node>)
    requires Inv(s, rows) && op.AddDoc? && Allowed(s, op)
    ensures Inv(Next(s, op, rows), rows)
  {
    var s' := Next(s, op, rows);
    InvMeansCoreFromRows(s, rows);
    LookupAfterUpsert(s.nodes, op.doc, op.doc.id);
    hide Lookup, LastRow, DistinctKeys, ShouldApply, IsPolicyUnder, Upsert, Has;
    forall id ensures Lookup(s'.nodes, id) == if id == op.doc.id then Some(op.doc) else Lookup(s.nodes, id) {
      LookupAfterUpsert(s.nodes, op.doc, id);
    }
    assert CoreFromRows(s'.nodes, rows) by {
      forall n | IsCore(n) ensures n in s'.nodes <==> LastRow(rows, n.id) == Some(n) {
        MemberIffLookup(s'.nodes, n);
      }
    }
    forall x, y ensures ShouldApply(s.nodes, x, y) <==> ShouldApply(s'.nodes, x, y) {
      SameCoreSameEdges(s.nodes, s'.nodes, rows, x, y);
    }
    forall x, y ensures IsPolicyUnder(s.nodes, x, y) <==> IsPolicyUnder(s'.nodes, x, y) {
      SameCoreSameEdges(s.nodes, s'.nodes, rows, x, y);
    }
    NewEdges(s, op, rows);
  }

  /** A new document brings only CREATED_FROM and SUPPORTS edges. */
  lemma NewEdges(s: Store, op: Op, rows: seq<Node>)
    requires op.AddDoc?
    ensures forall r: Rel :: r.kind == "APPLIES_TO" || r.kind == "CITES" ==>
              (r in Next(s, op, rows).relationships <==> r in s.relationships)
  {
    hide Upsert;
  }

  lemma {:induction false} RunKeepsInv(ops: seq<Op>, rows: seq<Node>)
    requires NonEmptyIds(rows) && Legal(ops, rows)
    ensures Inv(Run(ops, rows), rows)
  {
    hide Inv, Loaded, Allowed, DocumentAdded;
    if ops == [] {
      LoadKeepsInv(Store([], []), rows);
    } else {
      var s, op := Run(ops[..|ops| - 1], rows), ops[|ops| - 1];
      RunKeepsInv(ops[..|ops| - 1], rows);
      if op.Reload? {
        LoadKeepsInv(s, rows);
      } else {
        AddDocKeepsInv(s, op, rows);
      }
    }
  }

  /** The join over any loaded data is exact, and neither loading the data again nor ingesting
      documents, new or known ones, changes its answer. */
  lemma {:induction false} JoinExactAndStable(ops: seq<Op>, rows: seq<Node>, client: string)
    requires NonEmptyIds(rows) && Legal(ops, rows)
    ensures forall p :: p in RelatedPolicies(Run(ops, rows), client) <==> Governs(Run(ops, rows).nodes, p, client)
    ensures RelatedPolicies(Run(ops, rows), client) == RelatedPolicies(Run([], rows), client)
  {
    hide Inv, RelatedPolicies, Run, ShouldApply, IsPolicyUnder;
    RunKeepsInv(ops, rows);
    RunKeepsInv([], rows);
    var s, first := Run(ops, rows), Run([], rows);
    InvMeansCoreFromRows(s, rows);
    InvMeansCoreFromRows(first, rows);
    forall p ensures p in RelatedPolicies(s, client) <==> Governs(s.nodes, p, client)
             ensures p in RelatedPolicies(first, client) <==> Governs(first.nodes, p, client)
             ensures Governs(s.nodes, p, client) <==> Governs(first.nodes, p, client)
    {
      InvMeansEdgesOk(s, rows);
      InvMeansEdgesOk(first, rows);
      JoinIsExact(s, client, p);
      JoinIsExact(first, client, p);
      SameCoreSameAnswer(s.nodes, first.nodes, rows, p, client);
    }
  }

  lemma InvMeansEdgesOk(s: Store, rows: seq<Node>)
    requires Inv(s, rows)
    ensures EdgesOk(s)
  {
  }

  lemma SameCoreSameAnswer(a: seq<Node>, b: seq<Node>, rows: seq<Node>, p: string, client: string)
    requires CoreFromRows(a, rows) && CoreFromRows(b, rows)
    ensures Governs(a, p, client) <==> Governs(b, p, client)
  {
    hide ShouldApply, IsPolicyUnder, CoreFromRows;
    forall g ensures ShouldApply(a, g, client) <==> ShouldApply(b, g, client)
             ensures IsPolicyUnder(a, p, g) <==> IsPolicyUnder(b, p, g)
    {
      SameCoreSameEdges(a, b, rows, g, client);
      SameCoreSameEdges(a, b, rows, p, g);
    }
  }

  // ------------------------------------------------------------ the neighbourhood

  predicate UniqueIds(ns: seq<Neighbour>) {
    forall i, j :: 0 <= i < j < |ns| ==> ns[i].id != ns[j].id
  }

  lemma NeighbourAppended(found: seq<Neighbour>, n: Neighbour)
    requires UniqueIds(found) && n.id !in NeighbourIds(found)
    ensures NeighbourIds(found + [n]) == NeighbourIds(found) + {n.id}
    ensures UniqueIds(found + [n])
  {
    var ns := found + [n];
    forall i | 0 <= i < |found| ensures found[i].id in NeighbourIds(found) {
      assert found[i] in found;
    }
    assert ns[|found|] == n;
    forall m | m in found ensures m in ns {
    }
  }

  /** The hop yields each content-bearing node one edge away, in either direction, exactly once. */
  lemma {:induction false} NeighboursExact(rels: seq<Rel>, nodes: seq<Node>, source: string, id: string)
    ensures var ns := Neighbours(rels, nodes, source);
            && (id in NeighbourIds(ns) <==>
                && id != "" && ContentBearing(nodes, id)
                && exists r :: r in rels && Adjacent(r, source) && OtherEnd(r, source) == id)
            && UniqueIds(ns)
  {
    hide ContentBearing, Lookup;
    if rels != [] {
      var init, r := rels[..|rels| - 1], rels[|rels| - 1];
      assert rels == init + [r];
      NeighboursExact(init, nodes, source, id);
      var found, ns := Neighbours(init, nodes, source), Neighbours(rels, nodes, source);
      if ns != found {
        NeighbourAppended(found, ns[|found|]);
      }
    }
  }
}
