/** The metrics as counts: what is divided by what. */
module EvaluationExact {
  import opened Evaluation

  /** The positions of a longer list that are in a set: those of the list, and maybe the last. */
  lemma PositionsWithLast(init: seq<string>, last: string, s: set<string>)
    ensures (|set i | 0 <= i < |init + [last]| && (init + [last])[i] in s|)
         == (|set i | 0 <= i < |init| && init[i] in s|) + if last in s then 1 else 0
  {
    var xs, n := init + [last], |init|;
    var before, all := set i | 0 <= i < n && init[i] in s, set i | 0 <= i < |xs| && xs[i] in s;
    assert all == before + if last in s then {n} else {};
  }

  lemma {:induction false} HitsIsCount(xs: seq<string>, s: set<string>)
    ensures Hits(xs, s) == |set i | 0 <= i < |xs| && xs[i] in s|
  {
    if xs != [] {
      var init, last := xs[..|xs| - 1], xs[|xs| - 1];
      assert xs == init + [last];
      HitsIsCount(init, s);
      PositionsWithLast(init, last, s);
    }
  }

  lemma {:induction false} CountIsHits(ts: seq<string>, t: string)
    ensures Count(ts, t) == Hits(ts, {t})
  {
    if ts != [] {
      CountIsHits(ts[..|ts| - 1], t);
    }
  }

  lemma CountIsCount(ts: seq<string>, t: string)
    ensures Count(ts, t) == |set i | 0 <= i < |ts| && ts[i] == t|
  {
    CountIsHits(ts, t);
    var only := {t};
    HitsIsCount(ts, only);
    assert (set i | 0 <= i < |ts| && ts[i] == t) == (set i | 0 <= i < |ts| && ts[i] in only);
  }

  // ------------------------------------------------------------ relevancy

  /** How many pairs of equal tokens there are, one from each text. */
  function PairCount(a: seq<string>, b: seq<string>): nat {
    if a == [] then 0
    else PairCount(a[..|a| - 1], b) + |set j | 0 <= j < |b| && b[j] == a[|a| - 1]|
  }

  /** One more token in the first text adds its occurrences in the second. */
  lemma {:induction false} SumWithToken(ks: seq<string>, a: seq<string>, t: string, b: seq<string>)
    requires Distinct(ks)
    ensures Sum(ks, Product(a + [t], b)) == Sum(ks, Product(a, b)) + if t in ks then Count(b, t) else 0
  {
    assert (a + [t])[..|a|] == a;
    if ks != [] {
      SumWithToken(ks[1..], a, t, b);
      assert t in ks <==> t == ks[0] || t in ks[1..];
      assert t == ks[0] ==> t !in ks[1..];
      ProductWithToken(a, t, b, ks[0]);
    }
  }

  lemma ProductWithToken(a: seq<string>, t: string, b: seq<string>, k: string)
    ensures Product(a + [t], b)(k) == Product(a, b)(k) + if k == t then Count(b, t) else 0
  {
    assert (a + [t])[..|a|] == a;
    assert (Count(a, k) + 1) * Count(b, k) == Count(a, k) * Count(b, k) + Count(b, k);
  }

  lemma {:induction false} SumOfNothing(ks: seq<string>, b: seq<string>)
    ensures Sum(ks, Product([], b)) == 0
  {
    if ks != [] {
      SumOfNothing(ks[1..], b);
    }
  }

  lemma {:induction false} SumIsPairs(ks: seq<string>, a: seq<string>, b: seq<string>)
    requires Distinct(ks) && forall t :: t in a ==> t in ks
    ensures Sum(ks, Product(a, b)) == PairCount(a, b)
  {
    if a == [] {
      SumOfNothing(ks, b);
    } else {
      hide Sum, Count, Product;
      var init, last := a[..|a| - 1], a[|a| - 1];
      assert a == init + [last];
      SumIsPairs(ks, init, b);
      SumWithToken(ks, init, last, b);
      CountIsCount(b, last);
    }
  }

  /** The dot product counts the pairs of equal tokens; the squared norm those within one text. */
  lemma DotIsPairs(question: seq<string>, answer: seq<string>)
    ensures Dot(question, answer) == PairCount(question, answer)
    ensures SquaredNorm(question) == PairCount(question, question)
  {
    hide Sum, Count, Product;
    SumIsPairs(Keys(question), question, answer);
    SumIsPairs(Keys(question), question, question);
  }

  /** Relevancy is the number of shared pairs over the geometric mean of the pairs within each
      text, and 0 when a text is empty. */
  lemma RelevancyExact(question: seq<string>, answer: seq<string>, norm: real)
    requires IsNorm(question, answer, norm)
    ensures norm >= 0.0
            && norm * norm == (PairCount(question, question) * PairCount(answer, answer)) as real
    ensures if question == [] || answer == [] then Relevancy(question, answer, norm) == 0.0
            else norm > 0.0 && Relevancy(question, answer, norm) * norm == PairCount(question, answer) as real
  {
    hide Dot, SquaredNorm, PairCount;
    DotIsPairs(question, answer);
    DotIsPairs(answer, question);
    if question != [] && answer != [] {
      NormPositive(question);
      NormPositive(answer);
      NormIsPositive(SquaredNorm(question), SquaredNorm(answer), norm);
      TimesNorm(Dot(question, answer) as real, norm);
    }
  }

  lemma NormIsPositive(a: nat, b: nat, norm: real)
    requires a > 0 && b > 0 && norm >= 0.0 && norm * norm == (a * b) as real
    ensures norm > 0.0
  {
    assert a * b > 0;
    assert norm == 0.0 ==> norm * norm == 0.0;
  }

  lemma TimesNorm(x: real, y: real)
    requires y != 0.0
    ensures x / y * y == x
  {
  }

  // ------------------------------------------------------------ precision and recall

  /** Recall is the share of expected sources among the retrieved ones; precision the share of
      retrieved ones among the expected. */
  lemma SharesExact(retrieved: seq<string>, expected: seq<string>)
    ensures expected == [] ==> ContextRecall(retrieved, expected) == 1.0
    ensures expected != [] ==>
              ContextRecall(retrieved, expected) * |expected| as real
              == (|set i | 0 <= i < |expected| && expected[i] in retrieved|) as real
    ensures retrieved == [] ==> ContextPrecision(retrieved, expected) == 0.0
    ensures retrieved != [] ==>
              ContextPrecision(retrieved, expected) * |retrieved| as real
              == (|set i | 0 <= i < |retrieved| && retrieved[i] in expected|) as real
  {
    hide Hits;
    HitsIsCount(expected, AsSet(retrieved));
    HitsIsCount(retrieved, AsSet(expected));
    assert (set i | 0 <= i < |expected| && expected[i] in retrieved)
        == (set i | 0 <= i < |expected| && expected[i] in AsSet(retrieved));
    assert (set i | 0 <= i < |retrieved| && retrieved[i] in expected)
        == (set i | 0 <= i < |retrieved| && retrieved[i] in AsSet(expected));
    if expected != [] {
      TimesNorm(Hits(expected, AsSet(retrieved)) as real, |expected| as real);
    }
    if retrieved != [] {
      TimesNorm(Hits(retrieved, AsSet(expected)) as real, |retrieved| as real);
    }
  }

  // ------------------------------------------------------------ faithfulness

  predicate InSome(t: string, contexts: seq<seq<string>>) {
    exists c :: c in contexts && t in c
  }

  lemma {:induction false} PoolExact(contexts: seq<seq<string>>, t: string)
    ensures t in Pool(contexts) <==> InSome(t, contexts)
  {
    if contexts != [] {
      var init, last := contexts[..|contexts| - 1], contexts[|contexts| - 1];
      assert contexts == init + [last];
      PoolExact(init, t);
    }
  }

  /** At least half of the tokens of the sentence occur in the contexts. */
  predicate HalfFound(sentence: seq<string>, contexts: seq<seq<string>>) {
    2 * |set j | 0 <= j < |sentence| && InSome(sentence[j], contexts)| >= |sentence|
  }

  lemma GroundedIff(sentence: seq<string>, contexts: seq<seq<string>>)
    ensures Grounded(sentence, Pool(contexts)) <==> HalfFound(sentence, contexts)
  {
    hide Pool, InSome;
    HitsIsCount(sentence, Pool(contexts));
    forall j | 0 <= j < |sentence| ensures sentence[j] in Pool(contexts) <==> InSome(sentence[j], contexts) {
      PoolExact(contexts, sentence[j]);
    }
    assert (set j | 0 <= j < |sentence| && sentence[j] in Pool(contexts))
        == (set j | 0 <= j < |sentence| && InSome(sentence[j], contexts));
  }

  lemma FoundWithSentence(init: seq<seq<string>>, last: seq<string>, contexts: seq<seq<string>>)
    ensures (|set i | 0 <= i < |init + [last]| && HalfFound((init + [last])[i], contexts)|)
         == (|set i | 0 <= i < |init| && HalfFound(init[i], contexts)|) + if HalfFound(last, contexts) then 1 else 0
  {
    hide HalfFound;
    var sentences, n := init + [last], |init|;
    var before := set i | 0 <= i < n && HalfFound(init[i], contexts);
    var all := set i | 0 <= i < |sentences| && HalfFound(sentences[i], contexts);
    assert all == before + if HalfFound(last, contexts) then {n} else {};
  }

  lemma {:induction false} GroundedCountIsCount(sentences: seq<seq<string>>, contexts: seq<seq<string>>)
    ensures GroundedCount(sentences, Pool(contexts)) ==
            |set i | 0 <= i < |sentences| && HalfFound(sentences[i], contexts)|
  {
    hide HalfFound, Grounded, Pool;
    if sentences != [] {
      var init, last := sentences[..|sentences| - 1], sentences[|sentences| - 1];
      assert sentences == init + [last];
      GroundedCountIsCount(init, contexts);
      GroundedIff(last, contexts);
      FoundWithSentence(init, last, contexts);
    }
  }

  /** Faithfulness is the share of sentences at least half found; without sentences or context
      tokens it is 0. */
  lemma {:induction false} FaithfulnessExact(sentences: seq<seq<string>>, contexts: seq<seq<string>>)
    ensures var f := FaithfulnessOf(sentences, contexts);
            if sentences == [] || (forall c :: c in contexts ==> c == []) then f == 0.0
            else f * |sentences| as real
                 == (|set i | 0 <= i < |sentences| && HalfFound(sentences[i], contexts)|) as real
  {
    hide Pool, HalfFound, GroundedCount;
    GroundedCountIsCount(sentences, contexts);
    PoolEmptyIff(contexts);
    if sentences != [] {
      TimesNorm(GroundedCount(sentences, Pool(contexts)) as real, |sentences| as real);
    }
  }

  lemma {:induction false} PoolEmptyIff(contexts: seq<seq<string>>)
    ensures Pool(contexts) == {} <==> forall c :: c in contexts ==> c == []
  {
    hide Pool;
    if t :| t in Pool(contexts) {
      PoolExact(contexts, t);
    }
    if c :| c in contexts && c != [] {
      PoolExact(contexts, c[0]);
      assert c[0] in Pool(contexts);
    }
  }
}
