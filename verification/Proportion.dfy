/** When the relevancy metric reaches its maximum. */
module Proportion {
  import opened Evaluation

  function Square(z: int): (q: nat)
    ensures q == 0 <==> z == 0
  {
    z * z
  }

  /** The squared two-by-two minors of the count vectors that involve `t`. */
  function Minors(a: seq<string>, b: seq<string>, t: string): string -> nat {
    u => Square(Count(a, t) * Count(b, u) - Count(a, u) * Count(b, t))
  }

  function MinorSum(ks: seq<string>, a: seq<string>, b: seq<string>): string -> nat {
    t => Sum(ks, Minors(a, b, t))
  }

  lemma SquareOfMinor(x: int, y: int, v: int, w: int)
    ensures (x * w - v * y) * (x * w - v * y) == (x * x) * (w * w) + (y * y) * (v * v) - 2 * (x * y) * (v * w)
  {
    var p, q := x * w, v * y;
    assert (p - q) * (p - q) == p * p + q * q - 2 * (p * q);
    assert p * p == (x * x) * (w * w) && q * q == (y * y) * (v * v) && p * q == (x * y) * (v * w);
  }

  /** Adding one key to three sums with fixed coefficients. */
  lemma Distribute(c: int, d: int, e: int, s: int, t: int, u: int, s': int, t': int, u': int)
    ensures c * (s + s') + d * (t + t') - 2 * e * (u + u')
         == (c * s + d * t - 2 * e * u) + (c * s' + d * t' - 2 * e * u')
  {
  }

  lemma {:induction false} MinorsOfOne(ks: seq<string>, a: seq<string>, b: seq<string>, t: string)
    ensures var x, y := Count(a, t), Count(b, t);
            Sum(ks, Minors(a, b, t)) ==
            (x * x) * Sum(ks, Product(b, b)) + (y * y) * Sum(ks, Product(a, a)) - 2 * (x * y) * Sum(ks, Product(a, b))
  {
    hide Count;
    if ks != [] {
      var x, y, v, w := Count(a, t), Count(b, t), Count(a, ks[0]), Count(b, ks[0]);
      MinorsOfOne(ks[1..], a, b, t);
      SquareOfMinor(x, y, v, w);
      Distribute(x * x, y * y, x * y,
        w * w, v * v, v * w,
        Sum(ks[1..], Product(b, b)), Sum(ks[1..], Product(a, a)), Sum(ks[1..], Product(a, b)));
    }
  }

  lemma SumHead(ks: seq<string>, f: string -> nat)
    requires ks != []
    ensures Sum(ks, f) == f(ks[0]) + Sum(ks[1..], f)
  {
  }

  lemma AddRow(bb: int, aa: int, ab: int, xx: int, yy: int, xy: int, sa: int, sb: int, sab: int)
    ensures (xx * bb + yy * aa - 2 * xy * ab) + (bb * sa + aa * sb - 2 * ab * sab)
         == bb * (xx + sa) + aa * (yy + sb) - 2 * ab * (xy + sab)
  {
    Distribute(bb, aa, ab, xx, yy, xy, sa, sb, sab);
  }

  /** Lagrange's identity: the gap in the Cauchy-Schwarz inequality is a sum of squares. */
  lemma {:induction false} Lagrange(ts: seq<string>, ks: seq<string>, a: seq<string>, b: seq<string>)
    ensures Sum(ts, MinorSum(ks, a, b)) ==
            Sum(ks, Product(b, b)) * Sum(ts, Product(a, a)) + Sum(ks, Product(a, a)) * Sum(ts, Product(b, b))
            - 2 * Sum(ks, Product(a, b)) * Sum(ts, Product(a, b))
  {
    if ts == [] {
      SumsOfNothing(ks, a, b);
    } else {
      hide Count, Minors, Sum;
      Lagrange(ts[1..], ks, a, b);
      MinorsOfOne(ks, a, b, ts[0]);
      SumHead(ts, MinorSum(ks, a, b));
      SumHead(ts, Product(a, a));
      SumHead(ts, Product(b, b));
      SumHead(ts, Product(a, b));
      var x, y := Count(a, ts[0]), Count(b, ts[0]);
      AddRow(Sum(ks, Product(b, b)), Sum(ks, Product(a, a)), Sum(ks, Product(a, b)),
        x * x, y * y, x * y,
        Sum(ts[1..], Product(a, a)), Sum(ts[1..], Product(b, b)), Sum(ts[1..], Product(a, b)));
    }
  }

  lemma SumsOfNothing(ks: seq<string>, a: seq<string>, b: seq<string>)
    ensures Sum([], MinorSum(ks, a, b)) == 0
    ensures Sum([], Product(a, a)) == Sum([], Product(b, b)) == Sum([], Product(a, b)) == 0
  {
  }

  lemma {:induction false} SumZeroIff(ks: seq<string>, f: string -> nat)
    ensures Sum(ks, f) == 0 <==> forall t :: t in ks ==> f(t) == 0
  {
    if ks != [] {
      SumZeroIff(ks[1..], f);
      assert forall t :: t in ks <==> t == ks[0] || t in ks[1..];
    }
  }

  /** The count vectors are multiples of one another. */
  ghost predicate Proportional(a: seq<string>, b: seq<string>) {
    forall t, u :: Count(a, t) * Count(b, u) == Count(a, u) * Count(b, t)
  }

  lemma MinorZeroIff(a: seq<string>, b: seq<string>, t: string, u: string)
    ensures Minors(a, b, t)(u) == 0 <==> Count(a, t) * Count(b, u) == Count(a, u) * Count(b, t)
  {
    hide Count;
  }

  lemma MinorsVanishIff(ks: seq<string>, a: seq<string>, b: seq<string>)
    requires forall t :: t in a || t in b ==> t in ks
    ensures Sum(ks, MinorSum(ks, a, b)) == 0 <==> Proportional(a, b)
  {
    hide Count, Sum, Minors, MinorSum;
    var rows := MinorSum(ks, a, b);
    SumZeroIff(ks, rows);
    if Sum(ks, rows) == 0 {
      forall t, u ensures Count(a, t) * Count(b, u) == Count(a, u) * Count(b, t) {
        CountPositive(a, t);
        CountPositive(b, t);
        CountPositive(a, u);
        CountPositive(b, u);
        if t in ks && u in ks {
          RowZeroIff(ks, a, b, t);
          MinorZeroIff(a, b, t, u);
        }
      }
    }
    if Proportional(a, b) {
      forall t | t in ks ensures rows(t) == 0 {
        RowZeroIff(ks, a, b, t);
        forall u | u in ks ensures Minors(a, b, t)(u) == 0 {
          MinorZeroIff(a, b, t, u);
        }
      }
    }
  }

  lemma RowZeroIff(ks: seq<string>, a: seq<string>, b: seq<string>, t: string)
    ensures MinorSum(ks, a, b)(t) == 0 <==> forall u :: u in ks ==> Minors(a, b, t)(u) == 0
  {
    hide Count, Sum, Minors;
    SumZeroIff(ks, Minors(a, b, t));
  }

  /** On a list of keys that covers both, sums do not depend on whose keys are taken. */
  lemma OnAllKeys(question: seq<string>, answer: seq<string>)
    ensures var ks := Keys(question + answer);
            && Sum(ks, Product(question, answer)) == Dot(question, answer)
            && Sum(ks, Product(question, question)) == SquaredNorm(question)
            && Sum(ks, Product(answer, answer)) == SquaredNorm(answer)
  {
    hide Product, Sum;
    var ks := Keys(question + answer);
    forall t
      ensures Product(question, answer)(t) > 0 ==> t in question
      ensures Product(question, question)(t) > 0 ==> t in question
      ensures Product(answer, answer)(t) > 0 ==> t in answer
    {
      OnlySharedKeysCount(question, answer, t);
      OnlySharedKeysCount(question, question, t);
      OnlySharedKeysCount(answer, answer, t);
    }
    SumBoth(ks, Keys(question), Product(question, answer));
    SumBoth(ks, Keys(question), Product(question, question));
    SumBoth(ks, Keys(answer), Product(answer, answer));
  }

  lemma OnlySharedKeysCount(a: seq<string>, b: seq<string>, t: string)
    ensures Product(a, b)(t) > 0 ==> t in a && t in b
  {
    hide Count;
    CountPositive(a, t);
    CountPositive(b, t);
  }

  lemma SumBoth(a: seq<string>, b: seq<string>, f: string -> nat)
    requires Distinct(a) && Distinct(b)
    requires forall t :: f(t) > 0 ==> t in a && t in b
    ensures Sum(a, f) == Sum(b, f)
  {
    SumSupport(a, b, f);
    SumSupport(b, a, f);
  }

  /** Equality in the bound of the dot product. */
  lemma DotMaximalIff(question: seq<string>, answer: seq<string>)
    ensures Dot(question, answer) * Dot(question, answer) == SquaredNorm(question) * SquaredNorm(answer)
            <==> Proportional(question, answer)
  {
    hide Count, Sum, Keys, Dot, SquaredNorm, Proportional;
    var ks := Keys(question + answer);
    OnAllKeys(question, answer);
    Lagrange(ks, ks, question, answer);
    MinorsVanishIff(ks, question, answer);
  }

  /** Relevancy is 1 exactly when neither text is empty and the token counts of one are a multiple
      of those of the other. */
  lemma RelevancyOneIffProportional(question: seq<string>, answer: seq<string>, norm: real)
    requires IsNorm(question, answer, norm)
    ensures Relevancy(question, answer, norm) == 1.0 <==>
            question != [] && answer != [] && Proportional(question, answer)
  {
    hide Dot, SquaredNorm, Proportional;
    if question != [] && answer != [] {
      NormPositive(question);
      NormPositive(answer);
      DotMaximalIff(question, answer);
      var dot, bound := Dot(question, answer), SquaredNorm(question) * SquaredNorm(answer);
      assert bound > 0;
      QuotientOne(dot, bound, norm);
    }
  }

  lemma QuotientOne(dot: nat, bound: nat, norm: real)
    requires norm >= 0.0 && norm * norm == bound as real && bound > 0
    ensures norm != 0.0
    ensures dot as real / norm == 1.0 <==> dot * dot == bound
  {
    var d := dot as real;
    assert (dot * dot) as real == d * d;
    assert d == (d / norm) * norm;
    if d * d == norm * norm {
      RealSquareOrder(d, norm);
      RealSquareOrder(norm, d);
    }
  }
}
