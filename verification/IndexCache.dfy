/** The retriever's index over the live knowledge graph: staleness is judged by the node count
    alone, document chunks live only in the index. */
module IndexCache {
  import opened Keyed

  /** A graph node with the columns the index reads; a missing column is empty. */
  datatype Node = Node(
    key: string,
    kind: string,
    policyId: string,
    regulationId: string,
    evidenceId: string,
    title: string,
    summary: string,
    excerpt: string)

  datatype Item =
    | Entry(id: string, text: string, node: Node)
    | Chunk(id: string, text: string, docId: string, number: nat)

  type ChunkItem = i: Item | i.Chunk? witness Chunk("", "", "", 0)

  /** `" ".join(filter(None, [a, b]))`. */
  function JoinFilled(a: string, b: string): string {
    if a == "" then b else if b == "" then a else a + " " + b
  }

  /** What a node contributes to the corpus. */
  function EntryOf(n: Node): seq<Item> {
    if n.kind == "Policy" || n.kind == "Regulation" then
      var id := if n.policyId != "" then n.policyId else n.regulationId;
      var text := JoinFilled(n.title, n.summary);
      if id != "" && text != "" then [Entry(id, text, n)] else []
    else if n.kind == "Evidence" then
      if n.evidenceId != "" && n.excerpt != "" then [Entry(n.evidenceId, n.excerpt, n)] else []
    else []
  }

  function Corpus(nodes: seq<Node>): seq<Item> {
    if nodes == [] then [] else Corpus(nodes[..|nodes| - 1]) + EntryOf(nodes[|nodes| - 1])
  }

  function ChunkItems(docId: string, chunks: seq<string>, suffix: nat -> string): seq<ChunkItem> {
    seq(|chunks|, i requires 0 <= i < |chunks| => Chunk(docId + "#chunk" + suffix(i), chunks[i], docId, i))
  }

  function ChunksIn(items: seq<Item>): seq<Item> {
    if items == [] then []
    else ChunksIn(items[..|items| - 1]) + if items[|items| - 1].Chunk? then [items[|items| - 1]] else []
  }

  function EntriesIn(items: seq<Item>): seq<Item> {
    if items == [] then []
    else EntriesIn(items[..|items| - 1]) + if items[|items| - 1].Entry? then [items[|items| - 1]] else []
  }

  datatype Index = Index(items: seq<Item>, count: int)

  const EMPTY := Index([], -1)

  function Ensured(index: Index, nodes: seq<Node>): Index {
    if |nodes| != index.count then Index(Corpus(nodes), |nodes|) else index
  }

  function WithChunks(index: Index, nodes: seq<Node>, chunks: seq<ChunkItem>): Index {
    Index(Ensured(index, nodes).items + chunks, |nodes|)
  }

  class GraphRAGRetriever {
    /** `str(i)` in chunk ids. */
    const suffix: nat -> string
    var vectorStore: seq<Item>
    var indexedNodeCount: int

    function View(): Index
      reads this
    {
      Index(vectorStore, indexedNodeCount)
    }

    constructor (suffix: nat -> string)
      ensures View() == EMPTY && this.suffix == suffix
    {
      this.suffix := suffix;
      vectorStore, indexedNodeCount := [], -1;
    }

    /** `nodes` is the current content of the store, in insertion order. */
    method BuildIndex(nodes: seq<Node>) returns (size: nat)
      modifies this
      ensures View() == Index(Corpus(nodes), |nodes|) && size == |vectorStore|
    {
      var items: seq<Item> := [];
      for i := 0 to |nodes|
        invariant items == Corpus(nodes[..i])
      {
        assert nodes[..i + 1][..i] == nodes[..i];
        var node := nodes[i];
        if node.kind == "Policy" || node.kind == "Regulation" {
          var sourceId := if node.policyId != "" then node.policyId else node.regulationId;
          var text := JoinFilled(node.title, node.summary);
          if sourceId != "" && text != "" {
            items := items + [Entry(sourceId, text, node)];
          }
        } else if node.kind == "Evidence" {
          if node.evidenceId != "" && node.excerpt != "" {
            items := items + [Entry(node.evidenceId, node.excerpt, node)];
          }
        }
      }
      assert nodes[..|nodes|] == nodes;
      vectorStore, indexedNodeCount := items, |nodes|;
      return |items|;
    }

    method EnsureIndex(nodes: seq<Node>)
      modifies this
      ensures View() == Ensured(old(View()), nodes)
    {
      if |nodes| != indexedNodeCount {
        var _ := BuildIndex(nodes);
      }
    }

    method IndexChunks(nodes: seq<Node>, docId: string, chunks: seq<string>)
      modifies this
      ensures View() == WithChunks(old(View()), nodes, ChunkItems(docId, chunks, suffix))
    {
      EnsureIndex(nodes);
      vectorStore := vectorStore + ChunkItems(docId, chunks, suffix);
      indexedNodeCount := |nodes|;
    }
  }

  // ------------------------------------------------------------ what a node contributes

  /** A policy or regulation contributes its title and summary under its policy id, or else its
      regulation id; evidence its excerpt under its own id. Without id or text, and for any
      other kind, a node contributes nothing. */
  lemma EntryExact(n: Node)
    ensures n.kind == "Policy" || n.kind == "Regulation" ==>
              var id := if n.policyId == "" then n.regulationId else n.policyId;
              if id == "" || (n.title == "" && n.summary == "") then EntryOf(n) == []
              else
                && |EntryOf(n)| == 1 && EntryOf(n)[0].Entry? && EntryOf(n)[0].id == id && EntryOf(n)[0].node == n
                && (n.title == "" ==> EntryOf(n)[0].text == n.summary)
                && (n.summary == "" ==> EntryOf(n)[0].text == n.title)
                && (n.title != "" && n.summary != "" ==> EntryOf(n)[0].text == n.title + " " + n.summary)
    ensures n.kind == "Evidence" ==>
              if n.evidenceId == "" || n.excerpt == "" then EntryOf(n) == []
              else EntryOf(n) == [Entry(n.evidenceId, n.excerpt, n)]
    ensures n.kind !in {"Policy", "Regulation", "Evidence"} ==> EntryOf(n) == []
  {
  }

  /** The chunks of a document are numbered and carry its id and their text. */
  lemma ChunkItemsExact(docId: string, chunks: seq<string>, suffix: nat -> string, i: nat)
    requires i < |chunks|
    ensures |ChunkItems(docId, chunks, suffix)| == |chunks|
    ensures ChunkItems(docId, chunks, suffix)[i] == Chunk(docId + "#chunk" + suffix(i), chunks[i], docId, i)
  {
  }

  // ------------------------------------------------------------ runs

  const NODE_KEY: Node -> string := (n: Node) => n.key

  /** The position of a key; the size when it is absent. */
  function IndexOf(nodes: seq<Node>, key: string): (k: nat)
    ensures k <= |nodes|
    ensures k < |nodes| ==> nodes[k].key == key
  {
    IndexBy(NODE_KEY, nodes, key)
  }

  function Upsert(nodes: seq<Node>, n: Node): seq<Node> {
    UpsertBy(NODE_KEY, nodes, n)
  }

  /** A node is stored, a query runs, or the chunks of a document are indexed. */
  datatype Step = Store(node: Node) | Query | AddChunks(chunks: seq<ChunkItem>)

  datatype State = State(nodes: seq<Node>, index: Index)

  function Next(s: State, step: Step): State {
    match step
    case Store(n) => s.(nodes := Upsert(s.nodes, n))
    case Query => s.(index := Ensured(s.index, s.nodes))
    case AddChunks(chunks) => s.(index := WithChunks(s.index, s.nodes, chunks))
  }

  function Run(steps: seq<Step>): State {
    if steps == [] then State([], EMPTY) else Next(Run(steps[..|steps| - 1]), steps[|steps| - 1])
  }

  /** The nodes as they were when the index was last built. */
  function Built(steps: seq<Step>): seq<Node> {
    if steps == [] then []
    else
      var init, last := steps[..|steps| - 1], steps[|steps| - 1];
      if last.Store? || Run(init).index.count == |Run(init).nodes| then Built(init) else Run(init).nodes
  }

  /** The chunks indexed since the last insertion of a new node. */
  function LiveChunks(steps: seq<Step>): seq<Item> {
    if steps == [] then []
    else
      var init, last := steps[..|steps| - 1], steps[|steps| - 1];
      match last
      case Store(n) => if IndexOf(Run(init).nodes, n.key) < |Run(init).nodes| then LiveChunks(init) else []
      case Query => LiveChunks(init)
      case AddChunks(chunks) => LiveChunks(init) + chunks
  }

  // ------------------------------------------------------------ lemmas on the index

  lemma {:induction false} SplitAppend(a: seq<Item>, b: seq<Item>)
    ensures ChunksIn(a + b) == ChunksIn(a) + ChunksIn(b)
    ensures EntriesIn(a + b) == EntriesIn(a) + EntriesIn(b)
  {
    if b == [] {
      assert a + b == a;
    } else {
      assert (a + b)[..|a + b| - 1] == a + b[..|b| - 1];
      SplitAppend(a, b[..|b| - 1]);
    }
  }

  lemma {:induction false} OnlyChunks(items: seq<ChunkItem>)
    ensures ChunksIn(items) == items && EntriesIn(items) == []
  {
    if items != [] {
      OnlyChunks(items[..|items| - 1]);
      assert items == items[..|items| - 1] + [items[|items| - 1]];
    }
  }

  lemma {:induction false} CorpusHasNoChunks(nodes: seq<Node>)
    ensures ChunksIn(Corpus(nodes)) == [] && EntriesIn(Corpus(nodes)) == Corpus(nodes)
  {
    if nodes != [] {
      CorpusHasNoChunks(nodes[..|nodes| - 1]);
      SplitAppend(Corpus(nodes[..|nodes| - 1]), EntryOf(nodes[|nodes| - 1]));
      OneEntry(nodes[|nodes| - 1]);
    }
  }

  lemma OneEntry(n: Node)
    ensures ChunksIn(EntryOf(n)) == [] && EntriesIn(EntryOf(n)) == EntryOf(n)
  {
  }

  lemma {:induction false} CorpusAppend(a: seq<Node>, b: seq<Node>)
    ensures Corpus(a + b) == Corpus(a) + Corpus(b)
  {
    hide EntryOf;
    if b == [] {
      assert a + b == a;
    } else {
      assert (a + b)[..|a + b| - 1] == a + b[..|b| - 1];
      CorpusAppend(a, b[..|b| - 1]);
    }
  }

  lemma CorpusAround(nodes: seq<Node>, k: nat)
    requires k < |nodes|
    ensures Corpus(nodes) == Corpus(nodes[..k]) + EntryOf(nodes[k]) + Corpus(nodes[k + 1..])
  {
    hide EntryOf;
    assert nodes == nodes[..k + 1] + nodes[k + 1..] && nodes[..k + 1][..k] == nodes[..k];
    CorpusAppend(nodes[..k + 1], nodes[k + 1..]);
  }

  /** Overwriting a node leaves the corpus alone exactly if the node contributes the same. */
  lemma CorpusUnchangedIff(nodes: seq<Node>, k: nat, n: Node)
    requires k < |nodes|
    ensures Corpus(nodes[k := n]) == Corpus(nodes) <==> EntryOf(nodes[k]) == EntryOf(n)
  {
    hide EntryOf, Corpus;
    var after := nodes[k := n];
    assert after[..k] == nodes[..k] && after[k + 1..] == nodes[k + 1..];
    CorpusAround(nodes, k);
    CorpusAround(after, k);
    SameMiddle(Corpus(nodes[..k]), EntryOf(nodes[k]), EntryOf(n), Corpus(nodes[k + 1..]));
  }

  lemma SameMiddle(a: seq<Item>, x: seq<Item>, y: seq<Item>, b: seq<Item>)
    ensures a + x + b == a + y + b <==> x == y
  {
    if a + x + b == a + y + b {
      assert |x| == |y|;
      assert x == (a + x + b)[|a|..|a| + |x|] && y == (a + y + b)[|a|..|a| + |y|];
    }
  }

  predicate DistinctKeys(nodes: seq<Node>) {
    forall i, j :: 0 <= i < j < |nodes| ==> nodes[i].key != nodes[j].key
  }

  /** The first nodes have the keys of `built`, in the same places. */
  predicate SamePlaces(built: seq<Node>, nodes: seq<Node>) {
    |built| <= |nodes| && forall k :: 0 <= k < |built| ==> built[k].key == nodes[k].key
  }

  predicate SameEntries(a: seq<Node>, b: seq<Node>)
    requires |a| == |b|
  {
    forall k :: 0 <= k < |a| ==> EntryOf(a[k]) == EntryOf(b[k])
  }

  lemma {:induction false} CorpusMember(nodes: seq<Node>, e: Item)
    requires e in Corpus(nodes)
    ensures e.Entry? && exists k :: 0 <= k < |nodes| && nodes[k] == e.node
  {
    var n := |nodes| - 1;
    if e in Corpus(nodes[..n]) {
      CorpusMember(nodes[..n], e);
      var k :| 0 <= k < n && nodes[..n][k] == e.node;
      assert nodes[k] == e.node;
    } else {
      assert nodes[n] == e.node;
    }
  }

  /** A corpus without the last node ends in no entry of that node. */
  lemma {:induction false} LastEntryIsForeign(a: seq<Node>, b: seq<Node>, x: Node, y: Node)
    requires Corpus(a) + EntryOf(x) == Corpus(b) + EntryOf(y)
    requires forall k :: 0 <= k < |b| ==> b[k].key != x.key
    ensures EntryOf(x) != [] ==> EntryOf(y) != []
  {
    if EntryOf(x) != [] && EntryOf(y) == [] {
      var all := Corpus(b) + EntryOf(y);
      assert all == Corpus(b) && all[|all| - 1] == EntryOf(x)[0] && EntryOf(x)[0].node == x;
      CorpusMember(b, EntryOf(x)[0]);
    }
  }

  lemma EntryIsSingle(n: Node)
    ensures |EntryOf(n)| <= 1
  {
  }

  /** Corpora of dictionaries with the same keys in the same places are equal only if every node
      contributes the same. */
  lemma {:induction false} SameCorpusIff(a: seq<Node>, b: seq<Node>)
    requires |a| == |b| && SamePlaces(a, b) && DistinctKeys(a) && DistinctKeys(b)
    ensures Corpus(a) == Corpus(b) <==> SameEntries(a, b)
  {
    hide EntryOf;
    if a != [] {
      var n := |a| - 1;
      var a', b', x, y := a[..n], b[..n], EntryOf(a[n]), EntryOf(b[n]);
      SameCorpusIff(a', b');
      EntryIsSingle(a[n]);
      EntryIsSingle(b[n]);
      if Corpus(a) == Corpus(b) {
        LastEntryIsForeign(a', b', a[n], b[n]);
        LastEntryIsForeign(b', a', b[n], a[n]);
        assert |x| == |y|;
        SplitEqual(Corpus(a'), x, Corpus(b'), y);
      }
      assert SameEntries(a, b) <==> SameEntries(a', b') && x == y;
    }
  }

  lemma SplitEqual(a: seq<Item>, x: seq<Item>, b: seq<Item>, y: seq<Item>)
    requires a + x == b + y && |x| == |y|
    ensures a == b && x == y
  {
    assert |a| == |b|;
    assert a == (a + x)[..|a|] && b == (b + y)[..|b|];
    assert x == (a + x)[|a|..] && y == (b + y)[|b|..];
  }

  // ------------------------------------------------------------ what every run keeps

  /** The index holds the corpus of the nodes it was built from and, while the count is right, the
      live chunks; the nodes it was built from still have their places. */
  predicate Tracks(s: State, built: seq<Node>, live: seq<Item>) {
    && DistinctKeys(s.nodes) && DistinctKeys(built) && SamePlaces(built, s.nodes)
    && s.index.count <= |s.nodes|
    && (s.index.count >= 0 ==> s.index.count == |built|)
    && (s.index.count == |s.nodes| ==> ChunksIn(s.index.items) == live)
    && (s.index.count < |s.nodes| ==> live == [])
    && EntriesIn(s.index.items) == Corpus(built)
  }

  lemma StoreKeepsTracks(s: State, n: Node, built: seq<Node>, live: seq<Item>)
    requires Tracks(s, built, live)
    ensures Tracks(Next(s, Store(n)), built, if IndexOf(s.nodes, n.key) < |s.nodes| then live else [])
  {
    hide Corpus, ChunksIn, EntriesIn;
  }

  lemma RebuildKeepsTracks(s: State, built: seq<Node>, live: seq<Item>)
    requires Tracks(s, built, live)
    ensures var built' := if s.index.count == |s.nodes| then built else s.nodes;
            Tracks(s.(index := Ensured(s.index, s.nodes)), built', live)
  {
    hide Corpus, ChunksIn, EntriesIn;
    CorpusHasNoChunks(s.nodes);
  }

  lemma AddKeepsTracks(s: State, chunks: seq<ChunkItem>, built: seq<Node>, live: seq<Item>)
    requires Tracks(s, built, live) && s.index.count == |s.nodes|
    ensures Tracks(s.(index := Index(s.index.items + chunks, |s.nodes|)), built, live + chunks)
  {
    hide Corpus, ChunksIn, EntriesIn;
    SplitAppend(s.index.items, chunks);
    OnlyChunks(chunks);
  }

  lemma {:induction false} RunTracks(steps: seq<Step>)
    ensures Tracks(Run(steps), Built(steps), LiveChunks(steps))
  {
    hide Tracks;
    if steps == [] {
      InitiallyTracks();
    } else {
      var init, last := steps[..|steps| - 1], steps[|steps| - 1];
      var s := Run(init);
      RunTracks(init);
      match last
      case Store(n) => StoreKeepsTracks(s, n, Built(init), LiveChunks(init));
      case Query => RebuildKeepsTracks(s, Built(init), LiveChunks(init));
      case AddChunks(chunks) =>
        RebuildKeepsTracks(s, Built(init), LiveChunks(init));
        AddKeepsTracks(s.(index := Ensured(s.index, s.nodes)), chunks, Built(steps), LiveChunks(init));
    }
  }

  lemma InitiallyTracks()
    ensures Tracks(State([], EMPTY), [], [])
  {
  }

  // ------------------------------------------------------------ what a query sees

  /** Whether the next query sees the current corpus: the count gives a change away, or every node
      still contributes what it did when the index was built. */
  predicate Fresh(steps: seq<Step>) {
    var s := Run(steps);
    s.index.count == |s.nodes| ==> |Built(steps)| == |s.nodes| && SameEntries(Built(steps), s.nodes)
  }

  /** Over every run, overwrites included: the chunks a query finds are those indexed since the
      last insertion of a new node, and the other entries are the corpus of the current nodes
      exactly if the count gives a change away or no node contributes anything else than when
      the index was built. */
  lemma {:induction false} QuerySeesCurrentCorpusIff(steps: seq<Step>)
    ensures var s := Run(steps + [Query]);
            && s.nodes == Run(steps).nodes
            && ChunksIn(s.index.items) == LiveChunks(steps)
            && (EntriesIn(s.index.items) == Corpus(s.nodes) <==> Fresh(steps))
  {
    hide Corpus, ChunksIn, EntriesIn, SameEntries;
    var all, s := steps + [Query], Run(steps);
    assert all[..|steps|] == steps;
    RunTracks(steps);
    RunTracks(all);
    if s.index.count == |s.nodes| {
      SameCorpusIff(Built(steps), s.nodes);
    }
  }

  /** After an overwrite of the node at `k`, in every run. */
  lemma {:induction false} OverwriteSeenIff(steps: seq<Step>, n: Node, k: nat)
    requires k == IndexOf(Run(steps).nodes, n.key) < |Run(steps).nodes|
    ensures var before, s := Run(steps), Run(steps + [Store(n), Query]);
            EntriesIn(s.index.items) == Corpus(s.nodes) <==>
            before.index.count == |before.nodes| ==>
            && |Built(steps)| == |before.nodes|
            && EntryOf(Built(steps)[k]) == EntryOf(n)
            && forall j :: 0 <= j < |before.nodes| && j != k ==> EntryOf(Built(steps)[j]) == EntryOf(before.nodes[j])
  {
    hide Corpus, ChunksIn, EntriesIn, EntryOf;
    var stored := steps + [Store(n)];
    assert stored + [Query] == steps + [Store(n), Query] && stored[..|steps|] == steps;
    QuerySeesCurrentCorpusIff(stored);
  }

  lemma RunNext(steps: seq<Step>, step: Step)
    ensures Run(steps + [step]) == Next(Run(steps), step)
    ensures Built(steps + [step]) ==
              if step.Store? || Run(steps).index.count == |Run(steps).nodes| then Built(steps) else Run(steps).nodes
  {
    assert (steps + [step])[..|steps|] == steps;
  }

  lemma SameEntriesOfOne(n: Node, m: Node)
    ensures SameEntries([n], [m]) <==> EntryOf(n) == EntryOf(m)
  {
    hide EntryOf;
    assert [n][0] == n && [m][0] == m;
  }

  lemma OverwriteOnly(n: Node, m: Node)
    requires n.key == m.key
    ensures Upsert([n], m) == [m]
  {
  }

  /** An overwrite that changes what a node contributes goes unnoticed: queries miss it, miss it
      again when the same overwrite is repeated, and are current once the old node is back. */
  lemma {:induction false} StaleAfterOverwrite(was: Node, now: Node)
    requires was.key == now.key && EntryOf(was) != EntryOf(now)
    ensures var prefix := [Store(was), Query, Store(now)];
            !Fresh(prefix) && !Fresh(prefix + [Store(now)]) && Fresh(prefix + [Store(was)])
  {
    hide EntryOf, Run, Built, Upsert, Corpus;
    var first, second, prefix := [Store(was)], [Store(was), Query], [Store(was), Query, Store(now)];
    assert [] + [Store(was)] == first && first + [Query] == second && second + [Store(now)] == prefix;
    StartsEmpty();
    RunNext([], Store(was));
    RunNext(first, Query);
    RunNext(second, Store(now));
    RunNext(prefix, Store(now));
    RunNext(prefix, Store(was));
    FirstStored(was);
    OverwriteOnly(was, now);
    OverwriteOnly(now, now);
    OverwriteOnly(now, was);
    assert Built(prefix) == [was] && Run(prefix).nodes == [now];
    SameEntriesOfOne(was, now);
    SameEntriesOfOne(was, was);
  }

  lemma StartsEmpty()
    ensures Run([]) == State([], EMPTY) && Built([]) == []
  {
  }

  lemma FirstStored(n: Node)
    ensures Upsert([], n) == [n]
  {
  }

  const OLD_POLICY: Node := Node("P", "Policy", "P", "", "", "old", "", "")
  const NEW_POLICY: Node := OLD_POLICY.(title := "new")

  /** A renamed policy, as queries see it. */
  lemma {:induction false} RenamedPolicyIsStale()
    ensures var s := Run([Store(OLD_POLICY), Query, Store(NEW_POLICY), Query]);
            s.nodes == [NEW_POLICY] && EntriesIn(s.index.items) == [Entry("P", "old", OLD_POLICY)]
  {
    hide Run, Built, Upsert, Corpus, EntriesIn, ChunksIn, EntryOf;
    var first, second := [Store(OLD_POLICY)], [Store(OLD_POLICY), Query];
    var third := second + [Store(NEW_POLICY)];
    assert [] + [Store(OLD_POLICY)] == first && first + [Query] == second;
    assert third + [Query] == [Store(OLD_POLICY), Query, Store(NEW_POLICY), Query];
    StartsEmpty();
    RunNext([], Store(OLD_POLICY));
    RunNext(first, Query);
    RunNext(second, Store(NEW_POLICY));
    RunNext(third, Query);
    FirstStored(OLD_POLICY);
    OverwriteOnly(OLD_POLICY, NEW_POLICY);
    CorpusHasNoChunks([OLD_POLICY]);
    CorpusOfOne(OLD_POLICY);
    OldPolicyEntry();
  }

  lemma OldPolicyEntry()
    ensures EntryOf(OLD_POLICY) == [Entry("P", "old", OLD_POLICY)]
  {
  }

  lemma CorpusOfOne(n: Node)
    ensures Corpus([n]) == EntryOf(n)
  {
    hide EntryOf;
    assert [n][..0] == [];
  }

  /** Ingesting a document stores its node and then indexes its chunks. Whatever was indexed
      before survives exactly when the node is not a new one: every freshly ingested document
      drops the chunks of all earlier ones. */
  lemma {:induction false} IngestKeepsEarlierChunksIffKnown(steps: seq<Step>, doc: Node, chunks: seq<ChunkItem>)
    ensures var earlier := LiveChunks(steps);
            var known := IndexOf(Run(steps).nodes, doc.key) < |Run(steps).nodes|;
            ChunksIn(Run(steps + [Store(doc), AddChunks(chunks)]).index.items) ==
            (if known then earlier else []) + chunks
  {
    var all := steps + [Store(doc), AddChunks(chunks)];
    assert all[..|all| - 1] == steps + [Store(doc)] && (steps + [Store(doc)])[..|steps|] == steps;
    RunTracks(all);
    assert LiveChunks(all) == LiveChunks(steps + [Store(doc)]) + chunks;
  }
}
