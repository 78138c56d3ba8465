/** The deterministic evaluation metrics, exact (before the final rounding to four places).
    Texts are given as their token lists. */
module Evaluation {

  // ------------------------------------------------------------ counters

  /** `Counter(ts)[t]`. */
  function Count(ts: seq<string>, t: string): nat {
    if ts == [] then 0 else Count(ts[..|ts| - 1], t) + if ts[|ts| - 1] == t then 1 else 0
  }

  predicate Distinct(ks: seq<string>) {
    forall i, j :: 0 <= i < j < |ks| ==> ks[i] != ks[j]
  }

  /** The keys of `Counter(ts)`, in order of first occurrence. */
  function Keys(ts: seq<string>): (ks: seq<string>)
    ensures Distinct(ks)
    ensures forall t :: t in ks <==> t in ts
  {
    if ts == [] then []
    else
      var init, t := Keys(ts[..|ts| - 1]), ts[|ts| - 1];
      assert ts == ts[..|ts| - 1] + [t];
      if t in init then init else init + [t]
  }

  lemma {:induction false} CountPositive(ts: seq<string>, t: string)
    ensures Count(ts, t) > 0 <==> t in ts
  {
    if ts != [] {
      assert ts == ts[..|ts| - 1] + [ts[|ts| - 1]];
      CountPositive(ts[..|ts| - 1], t);
    }
  }

  /** `sum(f(t) for t in ks)`. */
  function Sum(ks: seq<string>, f: string -> nat): nat {
    if ks == [] then 0 else f(ks[0]) + Sum(ks[1..], f)
  }

  function Product(a: seq<string>, b: seq<string>): string -> nat {
    t => Count(a, t) * Count(b, t)
  }

  /** The dot product as the code takes it: over the keys of the question only. */
  function Dot(question: seq<string>, answer: seq<string>): nat {
    Sum(Keys(question), Product(question, answer))
  }

  /** The squared Euclidean norm of the counts. */
  function SquaredNorm(ts: seq<string>): nat {
    Sum(Keys(ts), Product(ts, ts))
  }

  // ------------------------------------------------------------ sums over keys

  lemma {:induction false} SumRemove(ks: seq<string>, k: nat, f: string -> nat)
    requires k < |ks|
    ensures Sum(ks, f) == f(ks[k]) + Sum(ks[..k] + ks[k + 1..], f)
  {
    if k == 0 {
      assert ks[..0] + ks[1..] == ks[1..];
    } else {
      var rest := ks[1..];
      SumRemove(rest, k - 1, f);
      assert (ks[..k] + ks[k + 1..])[1..] == rest[..k - 1] + rest[k..];
    }
  }

  /** Only the keys where the summand is positive matter. */
  lemma {:induction false} SumSupport(a: seq<string>, b: seq<string>, f: string -> nat)
    requires Distinct(a)
    requires forall t :: t in a && f(t) > 0 ==> t in b
    ensures Sum(a, f) <= Sum(b, f)
    decreases |a|
  {
    if a != [] {
      var t := a[0];
      if f(t) == 0 {
        SumSupport(a[1..], b, f);
      } else {
        var k :| 0 <= k < |b| && b[k] == t;
        var rest := b[..k] + b[k + 1..];
        forall u | u in a[1..] && f(u) > 0 ensures u in rest {
          var i :| 0 <= i < |b| && b[i] == u;
          assert i < k ==> rest[i] == u;
          assert i > k ==> rest[i - 1] == u;
        }
        SumSupport(a[1..], rest, f);
        SumRemove(b, k, f);
      }
    }
  }

  // ------------------------------------------------------------ Cauchy-Schwarz

  lemma MeanInequality(u: nat, v: nat, w: nat)
    requires w * w <= u * v
    ensures 2 * w <= u + v
  {
    assert (u - v) * (u - v) >= 0;
    assert (u + v) * (u + v) == (u - v) * (u - v) + 4 * (u * v);
    assert (2 * w) * (2 * w) == 4 * (w * w);
    if 2 * w > u + v {
      SquareMonotone(u + v, 2 * w);
    }
  }

  lemma SquareMonotone(a: nat, b: nat)
    requires a < b
    ensures a * a < b * b
  {
    assert b * b == a * a + 2 * a * (b - a) + (b - a) * (b - a);
    assert a * (b - a) >= 0 && (b - a) * (b - a) > 0;
  }

  lemma Regroup(a: nat, b: nat, c: nat, d: nat)
    ensures (a * b) * (c * d) == (a * c) * (b * d)
  {
    calc {
      (a * b) * (c * d);
      a * (b * (c * d));
      a * ((b * c) * d);
      a * (c * (b * d));
      (a * c) * (b * d);
    }
  }

  lemma ProductOfSums(a: nat, b: nat, c: nat, d: nat)
    ensures (a + b) * (c + d) == a * c + a * d + b * c + b * d
  {
  }

  lemma {:induction false} CauchyStep(p: nat, a: nat, b: nat, x: nat, y: nat)
    requires p * p <= a * b
    ensures (p + x * y) * (p + x * y) <= (a + x * x) * (b + y * y)
  {
    Regroup(x, y, x, y);
    CauchyCore(p, x * y, a, b, x * x, y * y);
  }

  lemma CauchyCore(p: nat, q: nat, a: nat, b: nat, c: nat, d: nat)
    requires p * p <= a * b && q * q == c * d
    ensures (p + q) * (p + q) <= (a + c) * (b + d)
  {
    MixedTerm(p, q, a, b, c, d);
    MeanInequality(a * d, c * b, p * q);
    ProductOfSums(p, q, p, q);
    ProductOfSums(a, c, b, d);
  }

  lemma MixedTerm(p: nat, q: nat, a: nat, b: nat, c: nat, d: nat)
    requires p * p <= a * b && q * q == c * d
    ensures (p * q) * (p * q) <= (a * d) * (c * b)
  {
    calc {
      (p * q) * (p * q);
    ==  { Regroup(p, q, p, q); }
      (p * p) * (q * q);
    <=  { ProductMonotone(p * p, a * b, q * q); }
      (a * b) * (q * q);
    ==
      (a * b) * (d * c);
    ==  { Regroup(a, b, d, c); }
      (a * d) * (b * c);
    ==
      (a * d) * (c * b);
    }
  }

  lemma ProductMonotone(a: nat, b: nat, m: nat)
    requires a <= b
    ensures a * m <= b * m
  {
  }

  lemma {:induction false} CauchySchwarz(ks: seq<string>, a: seq<string>, b: seq<string>)
    ensures Sum(ks, Product(a, b)) * Sum(ks, Product(a, b))
         <= Sum(ks, Product(a, a)) * Sum(ks, Product(b, b))
  {
    if ks != [] {
      CauchySchwarz(ks[1..], a, b);
      CauchyStep(
        Sum(ks[1..], Product(a, b)), Sum(ks[1..], Product(a, a)), Sum(ks[1..], Product(b, b)),
        Count(a, ks[0]), Count(b, ks[0]));
    }
  }

  /** The dot product over question keys only is bounded by the product of both norms. */
  lemma DotBounded(question: seq<string>, answer: seq<string>)
    ensures Dot(question, answer) * Dot(question, answer) <= SquaredNorm(question) * SquaredNorm(answer)
  {
    hide Keys, Sum, Count;
    var ks := Keys(question);
    CauchySchwarz(ks, question, answer);
    forall t | t in ks && Product(answer, answer)(t) > 0 ensures t in Keys(answer) {
      CountPositive(answer, t);
    }
    SumSupport(ks, Keys(answer), Product(answer, answer));
    ProductMonotone(Sum(ks, Product(answer, answer)), SquaredNorm(answer), SquaredNorm(question));
  }

  lemma NormPositive(ts: seq<string>)
    requires ts != []
    ensures SquaredNorm(ts) > 0
  {
    var ks := Keys(ts);
    assert ts[0] in ks;
    CountPositive(ts, ks[0]);
    assert ks[0] in ts;
    var n := Count(ts, ks[0]);
    assert n * n > 0;
  }

  /** `answer_relevancy`, given the product `norm` of the two Euclidean norms. */
  function Relevancy(question: seq<string>, answer: seq<string>, norm: real): real {
    if question == [] || answer == [] || norm == 0.0 then 0.0 else Dot(question, answer) as real / norm
  }

  predicate IsNorm(question: seq<string>, answer: seq<string>, norm: real) {
    norm >= 0.0 && norm * norm == (SquaredNorm(question) * SquaredNorm(answer)) as real
  }

  lemma RealSquareStrict(x: real, y: real)
    requires x > y >= 0.0
    ensures x * x > y * y
  {
    assert x * (x - y) > 0.0;
    assert y * (x - y) >= 0.0;
  }

  lemma RealSquareOrder(x: real, y: real)
    requires y >= 0.0 && x * x <= y * y
    ensures x <= y
  {
    if x > y {
      RealSquareStrict(x, y);
    }
  }

  /** Relevancy lies in the unit interval for all token lists. */
  lemma RelevancyInUnitInterval(question: seq<string>, answer: seq<string>, norm: real)
    requires IsNorm(question, answer, norm)
    ensures 0.0 <= Relevancy(question, answer, norm) <= 1.0
  {
    if question != [] && answer != [] && norm != 0.0 {
      DotBounded(question, answer);
      QuotientAtMostOne(Dot(question, answer), SquaredNorm(question) * SquaredNorm(answer), norm);
    }
  }

  lemma QuotientAtMostOne(dot: nat, bound: nat, norm: real)
    requires dot * dot <= bound && norm > 0.0 && norm * norm == bound as real
    ensures 0.0 <= dot as real / norm <= 1.0
  {
    assert (dot * dot) as real == dot as real * dot as real;
    RealSquareOrder(dot as real, norm);
    var q := dot as real / norm;
    assert dot as real == q * norm;
  }

  /** Relevancy vanishes exactly when question and answer share no token. */
  lemma RelevancyZeroIffNothingShared(question: seq<string>, answer: seq<string>, norm: real)
    requires IsNorm(question, answer, norm)
    ensures Relevancy(question, answer, norm) == 0.0 <==> forall t :: t in question ==> t !in answer
  {
    if question == [] || answer == [] {
      return;
    }
    NormPositive(question);
    NormPositive(answer);
    var f, ks := Product(question, answer), Keys(question);
    forall t ensures f(t) > 0 <==> t in question && t in answer {
      CountPositive(question, t);
      CountPositive(answer, t);
    }
    if Dot(question, answer) == 0 {
      forall t | t in question ensures t !in answer {
        assert t in ks;
        var k :| 0 <= k < |ks| && ks[k] == t;
        SumRemove(ks, k, f);
      }
    }
    if forall t :: t in question ==> t !in answer {
      SumSupport(ks, [], f);
    }
    assert SquaredNorm(question) * SquaredNorm(answer) > 0;
    assert norm != 0.0;
    QuotientZero(Dot(question, answer) as real, norm);
  }

  lemma QuotientZero(x: real, y: real)
    requires y != 0.0
    ensures x / y == 0.0 <==> x == 0.0
  {
    assert x == (x / y) * y;
  }

  /** Although the sum ranges over question keys only, the metric is symmetric. */
  lemma DotSymmetric(question: seq<string>, answer: seq<string>)
    ensures Dot(question, answer) == Dot(answer, question)
  {
    DotLeq(question, answer);
    DotLeq(answer, question);
  }

  lemma DotLeq(a: seq<string>, b: seq<string>)
    ensures Dot(a, b) <= Dot(b, a)
  {
    forall t | t in Keys(a) && Product(a, b)(t) > 0 ensures t in Keys(b) {
      CountPositive(b, t);
    }
    SumSupport(Keys(a), Keys(b), Product(a, b));
    SumExtensional(Keys(b), Product(a, b), Product(b, a));
  }

  lemma {:induction false} SumExtensional(ks: seq<string>, f: string -> nat, g: string -> nat)
    requires forall t :: f(t) == g(t)
    ensures Sum(ks, f) == Sum(ks, g)
  {
    if ks != [] {
      SumExtensional(ks[1..], f, g);
    }
  }

  // ------------------------------------------------------------ retrieval metrics

  /** How many of `xs` (with repetitions) are in the set. */
  function Hits(xs: seq<string>, s: set<string>): (n: nat)
    ensures n <= |xs|
    ensures n == |xs| <==> forall x :: x in xs ==> x in s
  {
    if xs == [] then 0
    else
      var init := xs[..|xs| - 1];
      assert xs == init + [xs[|xs| - 1]];
      Hits(init, s) + if xs[|xs| - 1] in s then 1 else 0
  }

  function AsSet(xs: seq<string>): set<string> {
    set x | x in xs
  }

  function ContextPrecision(retrieved: seq<string>, expected: seq<string>): real {
    if retrieved == [] then 0.0 else Hits(retrieved, AsSet(expected)) as real / |retrieved| as real
  }

  function ContextRecall(retrieved: seq<string>, expected: seq<string>): real {
    if expected == [] then 1.0 else Hits(expected, AsSet(retrieved)) as real / |expected| as real
  }

  lemma {:induction false} HitsMonotone(xs: seq<string>, s: set<string>, t: set<string>)
    requires s <= t
    ensures Hits(xs, s) <= Hits(xs, t)
  {
    if xs != [] {
      HitsMonotone(xs[..|xs| - 1], s, t);
    }
  }

  lemma FractionMonotone(a: nat, b: nat, n: nat)
    requires a <= b && n > 0
    ensures a as real / n as real <= b as real / n as real
  {
  }

  lemma FractionInUnitInterval(a: nat, n: nat)
    requires a <= n && n > 0
    ensures 0.0 <= a as real / n as real <= 1.0
    ensures a as real / n as real == 1.0 <==> a == n
  {
    assert a as real == (a as real / n as real) * n as real;
  }

  /** Retrieving more never lowers recall. */
  lemma RecallMonotone(some: seq<string>, more: seq<string>, expected: seq<string>)
    requires AsSet(some) <= AsSet(more)
    ensures ContextRecall(some, expected) <= ContextRecall(more, expected)
  {
    if expected != [] {
      HitsMonotone(expected, AsSet(some), AsSet(more));
      FractionMonotone(Hits(expected, AsSet(some)), Hits(expected, AsSet(more)), |expected|);
    }
  }

  /** Recall is a fraction, and full exactly when every expected source was retrieved. */
  lemma RecallFull(retrieved: seq<string>, expected: seq<string>)
    ensures 0.0 <= ContextRecall(retrieved, expected) <= 1.0
    ensures ContextRecall(retrieved, expected) == 1.0 <==> forall e :: e in expected ==> e in retrieved
  {
    if expected != [] {
      FractionInUnitInterval(Hits(expected, AsSet(retrieved)), |expected|);
    }
  }

  /** Precision is a fraction, and full exactly when something and only expected sources were retrieved. */
  lemma PrecisionFull(retrieved: seq<string>, expected: seq<string>)
    ensures 0.0 <= ContextPrecision(retrieved, expected) <= 1.0
    ensures ContextPrecision(retrieved, expected) == 1.0 <==>
            retrieved != [] && forall r :: r in retrieved ==> r in expected
  {
    if retrieved != [] {
      FractionInUnitInterval(Hits(retrieved, AsSet(expected)), |retrieved|);
    }
  }

  // ------------------------------------------------------------ faithfulness

  /** At least half of the sentence's tokens occur in the contexts. */
  predicate Grounded(sentence: seq<string>, pool: set<string>) {
    2 * Hits(sentence, pool) >= |sentence|
  }

  function GroundedCount(sentences: seq<seq<string>>, pool: set<string>): (n: nat)
    ensures n <= |sentences|
  {
    if sentences == [] then 0
    else GroundedCount(sentences[..|sentences| - 1], pool)
         + if Grounded(sentences[|sentences| - 1], pool) then 1 else 0
  }

  function Pool(contexts: seq<seq<string>>): set<string> {
    if contexts == [] then {} else Pool(contexts[..|contexts| - 1]) + AsSet(contexts[|contexts| - 1])
  }

  function FaithfulnessOf(sentences: seq<seq<string>>, contexts: seq<seq<string>>): real {
    if sentences == [] || Pool(contexts) == {} then 0.0
    else GroundedCount(sentences, Pool(contexts)) as real / |sentences| as real
  }

  /** `faithfulness` on the tokens of the scored sentences (none of them empty). */
  method Faithfulness(sentences: seq<seq<string>>, contexts: seq<seq<string>>) returns (r: real)
    requires forall i :: 0 <= i < |sentences| ==> sentences[i] != []
    ensures r == FaithfulnessOf(sentences, contexts)
    ensures 0.0 <= r <= 1.0
  {
    if sentences == [] {
      return 0.0;
    }
    var pool: set<string> := {};
    for i := 0 to |contexts|
      invariant pool == Pool(contexts[..i])
    {
      assert contexts[..i + 1][..i] == contexts[..i];
      pool := pool + AsSet(contexts[i]);
    }
    assert contexts[..|contexts|] == contexts;
    if pool == {} {
      return 0.0;
    }
    var supported: nat := 0;
    for i := 0 to |sentences|
      invariant supported == GroundedCount(sentences[..i], pool) <= i
    {
      assert sentences[..i + 1][..i] == sentences[..i];
      var overlap := Hits(sentences[i], pool) as real / |sentences[i]| as real;
      HalfOverlap(Hits(sentences[i], pool), |sentences[i]|);
      if overlap >= 0.5 {
        supported := supported + 1;
      }
    }
    assert sentences[..|sentences|] == sentences;
    FractionInUnitInterval(supported, |sentences|);
    return supported as real / |sentences| as real;
  }

  lemma HalfOverlap(h: nat, n: nat)
    requires n > 0
    ensures h as real / n as real >= 0.5 <==> 2 * h >= n
  {
    var q := h as real / n as real;
    assert h as real == q * n as real;
    assert q >= 0.5 ==> (q - 0.5) * n as real >= 0.0;
    assert q < 0.5 ==> (0.5 - q) * n as real > 0.0;
  }

  lemma {:induction false} GroundedMonotone(sentences: seq<seq<string>>, s: set<string>, t: set<string>)
    requires s <= t
    ensures GroundedCount(sentences, s) <= GroundedCount(sentences, t)
  {
    if sentences != [] {
      GroundedMonotone(sentences[..|sentences| - 1], s, t);
      HitsMonotone(sentences[|sentences| - 1], s, t);
    }
  }

  lemma {:induction false} PoolMonotone(a: seq<seq<string>>, b: seq<seq<string>>)
    ensures Pool(a) <= Pool(a + b)
  {
    if b == [] {
      assert a + b == a;
    } else {
      assert (a + b)[..|a + b| - 1] == a + b[..|b| - 1];
      PoolMonotone(a, b[..|b| - 1]);
    }
  }

  /** More retrieved context never makes an answer less faithful. */
  lemma FaithfulnessMonotone(sentences: seq<seq<string>>, contexts: seq<seq<string>>, extra: seq<seq<string>>)
    ensures FaithfulnessOf(sentences, contexts) <= FaithfulnessOf(sentences, contexts + extra)
  {
    PoolMonotone(contexts, extra);
    GroundedMonotone(sentences, Pool(contexts), Pool(contexts + extra));
    if sentences != [] {
      FractionMonotone(
        GroundedCount(sentences, Pool(contexts)), GroundedCount(sentences, Pool(contexts + extra)), |sentences|);
      FractionInUnitInterval(GroundedCount(sentences, Pool(contexts + extra)), |sentences|);
    }
  }
}
