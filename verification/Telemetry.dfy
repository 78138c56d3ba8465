/** Request tracing: the span ring and the nesting depth shown in the waterfall. */
module Telemetry {
  import opened Prelude
  import opened Bounded

  datatype Span = Span(traceId: string, id: string, parent: Option<string>)

  class RingExporter {
    const limit: int
    var spans: seq<Span>
    /** Every batch exported so far. */
    ghost var exported: seq<seq<Span>>

    ghost predicate Valid()
      reads this
    {
      spans == KeptAfter(exported, limit)
    }

    constructor (limit: int)
      ensures Valid() && this.limit == limit && spans == [] && exported == []
    {
      this.limit := limit;
      spans, exported := [], [];
    }

    method Export(batch: seq<Span>)
      requires Valid()
      modifies this
      ensures Valid() && exported == old(exported) + [batch]
      ensures spans == Kept(old(spans), batch, limit)
    {
      for i := 0 to |batch|
        invariant spans == old(spans) + batch[..i] && exported == old(exported)
      {
        spans := spans + [batch[i]];
        assert batch[..i + 1] == batch[..i] + [batch[i]];
      }
      assert batch[..|batch|] == batch;
      if |spans| > limit {
        spans := PySuffix(spans, limit);
      }
      exported := exported + [batch];
      assert exported[..|exported| - 1] == old(exported);
    }

    /** After any exports the ring holds the newest spans ever exported, in order, and as many as
        the limit admits. */
    lemma HoldsNewest()
      requires Valid() && limit >= 1
      ensures NewestOf(spans, Flatten(exported), limit)
    {
      KeepsNewest(exported, limit);
    }
  }

  // ------------------------------------------------------------ depth

  type Index = map<string, Span>

  /** `{s["span_id"]: s for s in spans}`. */
  function ById(spans: seq<Span>): Index {
    if spans == [] then map[]
    else
      var last := spans[|spans| - 1];
      ById(spans[..|spans| - 1])[last.id := last]
  }

  lemma {:induction false} ByIdSize(spans: seq<Span>)
    ensures |ById(spans)| <= |spans|
  {
    if spans != [] {
      var init, last := ById(spans[..|spans| - 1]), spans[|spans| - 1];
      ByIdSize(spans[..|spans| - 1]);
      assert init[last.id := last].Keys == init.Keys + {last.id};
    }
  }

  /** The last span with an id is the one found under it. */
  lemma {:induction false} ByIdExact(spans: seq<Span>, id: string)
    ensures id in ById(spans) <==> exists k :: 0 <= k < |spans| && spans[k].id == id
    ensures id in ById(spans) ==>
              exists k :: 0 <= k < |spans| && spans[k].id == id && ById(spans)[id] == spans[k]
                          && forall l :: k < l < |spans| ==> spans[l].id != id
  {
    if spans != [] {
      var init, last := spans[..|spans| - 1], spans[|spans| - 1];
      ByIdExact(init, id);
      if last.id != id {
        assert forall k :: 0 <= k < |init| ==> init[k] == spans[k];
        assert id in ById(spans) <==> id in ById(init);
      }
    }
  }

  predicate DistinctIds(spans: seq<Span>) {
    forall i, j :: 0 <= i < j < |spans| ==> spans[i].id != spans[j].id
  }

  /** How far the walk gets within its budget. */
  function Walk(m: Index, parent: Option<string>, budget: nat): (level: nat)
    ensures level <= budget
    decreases budget
  {
    if parent.Some? && parent.value in m && budget > 0
    then 1 + Walk(m, m[parent.value].parent, budget - 1)
    else 0
  }

  /** `depth(s)` inside `get_trace`. */
  method Depth(spans: seq<Span>, s: Span) returns (level: nat)
    ensures level == Walk(ById(spans), s.parent, |spans|)
  {
    var byId := ById(spans);
    level := 0;
    var parent := s.parent;
    while parent.Some? && parent.value in byId && level < |spans|
      invariant level <= |spans|
      invariant level + Walk(byId, parent, |spans| - level) == Walk(byId, s.parent, |spans|)
      decreases |spans| - level
    {
      level := level + 1;
      parent := byId[parent.value].parent;
    }
  }

  /** The ancestor `k` links up from `id`, if the chain reaches that far inside the trace. */
  function Climb(m: Index, id: string, k: nat): (r: Option<string>)
    requires id in m
    ensures r.Some? ==> r.value in m
  {
    if k == 0 then Some(id)
    else
      var below := Climb(m, id, k - 1);
      if below.Some? && m[below.value].parent.Some? && m[below.value].parent.value in m
      then m[below.value].parent
      else None
  }

  /** Following parent links from `id` comes back to a span already seen. */
  ghost predicate Loops(m: Index, id: string)
    requires id in m
  {
    exists i, j :: Revisits(m, id, i, j)
  }

  predicate Revisits(m: Index, id: string, i: nat, j: nat)
    requires id in m
  {
    i < j && Climb(m, id, i).Some? && Climb(m, id, i) == Climb(m, id, j)
  }

  /** Climbing one step first. */
  lemma {:induction false} ClimbFromParent(m: Index, id: string, k: nat)
    requires id in m
    ensures var p := m[id].parent;
            Climb(m, id, k + 1) == if p.Some? && p.value in m then Climb(m, p.value, k) else None
  {
    if k > 0 {
      ClimbFromParent(m, id, k - 1);
    }
  }

  lemma {:induction false} ClimbPrefix(m: Index, id: string, k: nat, l: nat)
    requires id in m && k <= l && Climb(m, id, l).Some?
    ensures Climb(m, id, k).Some?
    decreases l
  {
    if k < l {
      ClimbPrefix(m, id, k, l - 1);
    }
  }

  /** The walk counts the ancestors inside its budget. */
  lemma {:induction false} WalkCountsAncestors(m: Index, id: string, budget: nat)
    requires id in m
    ensures var level := Walk(m, m[id].parent, budget);
            && Climb(m, id, level).Some?
            && (level < budget ==> Climb(m, id, level + 1).None?)
    decreases budget
  {
    var p := m[id].parent;
    if p.Some? && p.value in m && budget > 0 {
      WalkCountsAncestors(m, p.value, budget - 1);
      var level := Walk(m, m[p.value].parent, budget - 1);
      ClimbFromParent(m, id, level);
      ClimbFromParent(m, id, level + 1);
    } else {
      ClimbFromParent(m, id, 0);
    }
  }

  /** More than |s| elements of a set s cannot all be different. */
  lemma {:induction false} Pigeonhole(xs: seq<string>, s: set<string>) returns (i: nat, j: nat)
    requires |xs| > |s|
    requires forall k :: 0 <= k < |xs| ==> xs[k] in s
    ensures i < j < |xs| && xs[i] == xs[j]
    decreases |xs|
  {
    var last := |xs| - 1;
    if k :| 0 <= k < last && xs[k] == xs[last] {
      i, j := k, last;
    } else {
      i, j := Pigeonhole(xs[..last], s - {xs[last]});
    }
  }

  function Trail(m: Index, id: string, n: nat): (r: seq<string>)
    requires id in m && Climb(m, id, n).Some?
    ensures |r| == n + 1
    ensures forall k :: 0 <= k <= n ==> Climb(m, id, k) == Some(r[k])
  {
    if n == 0 then [id] else Trail(m, id, n - 1) + [Climb(m, id, n).value]
  }

  lemma {:induction false} LoopNeverEnds(m: Index, id: string, i: nat, j: nat, k: nat)
    requires id in m && Revisits(m, id, i, j)
    ensures Climb(m, id, k).Some?
    decreases k
  {
    if k <= j {
      ClimbPrefix(m, id, k, j);
    } else {
      LoopNeverEnds(m, id, i, j, k - 1);
      SamePosition(m, id, i, j, k - j);
      LoopNeverEnds(m, id, i, j, k - (j - i));
    }
  }

  lemma {:induction false} SamePosition(m: Index, id: string, i: nat, j: nat, d: nat)
    requires id in m && Climb(m, id, i) == Climb(m, id, j)
    ensures Climb(m, id, i + d) == Climb(m, id, j + d)
  {
    if d > 0 {
      SamePosition(m, id, i, j, d - 1);
    }
  }

  lemma {:induction false} FindsItself(spans: seq<Span>, k: nat)
    requires DistinctIds(spans) && k < |spans|
    ensures spans[k].id in ById(spans) && ById(spans)[spans[k].id] == spans[k]
  {
    if k < |spans| - 1 {
      FindsItself(spans[..|spans| - 1], k);
    }
  }

  /** A chain of more links than spans revisits one. */
  lemma LongChainLoops(m: Index, id: string, n: nat)
    requires id in m && |m| <= n && Climb(m, id, n).Some?
    ensures Loops(m, id)
  {
    hide Climb, Trail;
    var trail := Trail(m, id, n);
    assert |m.Keys| == |m|;
    var i, j := Pigeonhole(trail, m.Keys);
    assert Revisits(m, id, i, j);
  }

  lemma FullWalkIffLoop(m: Index, id: string, n: nat)
    requires id in m && |m| <= n
    ensures Walk(m, m[id].parent, n) == n <==> Loops(m, id)
  {
    hide Walk, Climb;
    WalkCountsAncestors(m, id, n);
    var level := Walk(m, m[id].parent, n);
    if level == n {
      LongChainLoops(m, id, n);
    }
    if Loops(m, id) {
      var i, j :| Revisits(m, id, i, j);
      LoopNeverEnds(m, id, i, j, level + 1);
    }
  }

  /** The guard on the level cuts a walk short exactly when the parent links run into a cycle;
      the walk then stops at the number of spans. */
  lemma {:induction false} GuardOnlyCutsCycles(spans: seq<Span>, k: nat)
    requires DistinctIds(spans) && k < |spans|
    ensures spans[k].id in ById(spans)
    ensures Walk(ById(spans), spans[k].parent, |spans|) == |spans| <==> Loops(ById(spans), spans[k].id)
  {
    FindsItself(spans, k);
    ByIdSize(spans);
    FullWalkIffLoop(ById(spans), spans[k].id, |spans|);
  }

  /** Without a cycle the depth is what the waterfall claims: 0 when the parent is missing or
      evicted, otherwise one more than the parent's depth. */
  lemma {:induction false} DepthIsParentDepthPlusOne(spans: seq<Span>, k: nat)
    requires DistinctIds(spans) && k < |spans|
    requires spans[k].id in ById(spans) && !Loops(ById(spans), spans[k].id)
    ensures var m, s := ById(spans), spans[k];
            Walk(m, s.parent, |spans|) ==
            if s.parent.Some? && s.parent.value in m
            then Walk(m, m[s.parent.value].parent, |spans|) + 1
            else 0
  {
    var m, n, s := ById(spans), |spans|, spans[k];
    GuardOnlyCutsCycles(spans, k);
    if s.parent.Some? && s.parent.value in m {
      WalkStable(m, m[s.parent.value].parent, n - 1);
    }
  }

  /** A walk that ended before its budget ends at the same place with more budget. */
  lemma {:induction false} WalkStable(m: Index, parent: Option<string>, budget: nat)
    requires Walk(m, parent, budget) < budget
    ensures Walk(m, parent, budget + 1) == Walk(m, parent, budget)
    decreases budget
  {
    if parent.Some? && parent.value in m {
      WalkStable(m, m[parent.value].parent, budget - 1);
    }
  }
}
