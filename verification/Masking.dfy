/** Right-to-left replacement of detected PII spans by their labels. */
module Masking {
  import opened Prelude
  import opened Sorting

  /** One analyzer result: the entity type and the half-open range it covers. */
  datatype Finding = Finding(entity: string, start: nat, end: nat)

  /** The platform's placeholder for an entity type; unknown types name themselves. */
  function Label(entity: string): string {
    match entity
    case "EMAIL_ADDRESS" => "EMAIL"
    case "PHONE_NUMBER" => "PHONE"
    case "IBAN_CODE" => "IBAN"
    case "CREDIT_CARD" => "CARD"
    case "US_SSN" => "SSN"
    case _ => entity
  }

  function Placeholder(f: Finding): string {
    "[" + Label(f.entity) + "]"
  }

  /** `masked[:start] + placeholder + masked[end:]`. */
  function Splice(s: string, f: Finding): string {
    s[..Clamp(s, f.start)] + Placeholder(f) + s[Clamp(s, f.end)..]
  }

  /** Replaces the findings one after the other, as the loop does. */
  function SpliceAll(s: string, fs: seq<Finding>): string
    decreases |fs|
  {
    if fs == [] then s else SpliceAll(Splice(s, fs[0]), fs[1..])
  }

  /** The labels in order of first use. */
  function LabelsOf(fs: seq<Finding>): (r: seq<string>)
    ensures forall f :: f in fs ==> Label(f.entity) in r
    ensures forall i, j :: 0 <= i < j < |r| ==> r[i] != r[j]
    ensures forall l :: l in r ==> exists f :: f in fs && l == Label(f.entity)
  {
    if fs == [] then []
    else
      var init, l := LabelsOf(fs[..|fs| - 1]), Label(fs[|fs| - 1].entity);
      assert forall f :: f in fs ==> f in fs[..|fs| - 1] || f == fs[|fs| - 1];
      if l in init then init else init + [l]
  }

  const BY_START_DESCENDING: Finding -> int := (f: Finding) => -(f.start as int)

  /** `_mask_pii_presidio` on given analyzer results. */
  method MaskFindings(text: string, results: seq<Finding>) returns (masked: string, found: seq<string>)
    ensures masked == SpliceAll(text, SortBy(BY_START_DESCENDING, results))
    ensures found == LabelsOf(SortBy(BY_START_DESCENDING, results))
  {
    var ordered := SortBy(BY_START_DESCENDING, results);
    masked, found := text, [];
    assert ordered[0..] == ordered;
    for i := 0 to |ordered|
      invariant SpliceAll(masked, ordered[i..]) == SpliceAll(text, ordered)
      invariant found == LabelsOf(ordered[..i])
    {
      var result := ordered[i];
      var tag := Label(result.entity);
      assert ordered[..i + 1][..i] == ordered[..i] && ordered[i..][1..] == ordered[i + 1..];
      if tag !in found {
        found := found + [tag];
      }
      masked := masked[..Clamp(masked, result.start)] + ("[" + tag + "]") + masked[Clamp(masked, result.end)..];
    }
    assert ordered[..|ordered|] == ordered;
  }

  // ------------------------------------------------------------ the specification

  /** Findings that lie in the text, are not empty and do not overlap, from left to right. */
  predicate InOrder(fs: seq<Finding>, from: nat, to: nat) {
    && (forall i :: 0 <= i < |fs| ==> from <= fs[i].start < fs[i].end <= to)
    && (forall i, j :: 0 <= i < j < |fs| ==> fs[i].end <= fs[j].start)
  }

  predicate Disjoint(fs: seq<Finding>, n: nat) {
    && (forall i :: 0 <= i < |fs| ==> fs[i].start < fs[i].end <= n)
    && (forall i, j :: 0 <= i < j < |fs| ==> fs[i].end <= fs[j].start || fs[j].end <= fs[i].start)
  }

  /** Left to right: the text outside the findings in order, each finding as its label. */
  function Redacted(s: string, from: nat, fs: seq<Finding>): string
    requires from <= |s| && InOrder(fs, from, |s|)
    decreases |fs|
  {
    if fs == [] then s[from..]
    else s[from..fs[0].start] + Placeholder(fs[0]) + Redacted(s, fs[0].end, fs[1..])
  }

  function Reverse<T>(s: seq<T>): (r: seq<T>)
    ensures |r| == |s|
    ensures forall i :: 0 <= i < |s| ==> r[i] == s[|s| - 1 - i]
  {
    seq(|s|, i requires 0 <= i < |s| => s[|s| - 1 - i])
  }

  /** Splicing the rightmost finding first leaves a text whose left part is untouched; the rest
      of the work is the same problem with one finding less. */
  lemma {:induction false} SpliceRightToLeft(s: string, fs: seq<Finding>)
    requires InOrder(fs, 0, |s|)
    ensures SpliceAll(s, Reverse(fs)) == Redacted(s, 0, fs)
    decreases |fs|
  {
    if fs != [] {
      var n := |fs| - 1;
      var init, last := fs[..n], fs[n];
      var s' := Splice(s, last);
      assert Reverse(fs)[0] == last && Reverse(fs)[1..] == Reverse(init);
      SpliceRightToLeft(s', init);
      RedactedLast(s, 0, fs);
    }
  }

  lemma InOrderParts(fs: seq<Finding>, from: nat, to: nat)
    requires fs != [] && InOrder(fs, from, to)
    ensures from <= fs[0].start < fs[0].end <= to
    ensures InOrder(fs[1..], fs[0].end, to)
    ensures from <= fs[|fs| - 1].start < fs[|fs| - 1].end <= to
    ensures InOrder(fs[..|fs| - 1], from, fs[|fs| - 1].start)
    ensures |fs| > 1 ==> fs[0].end <= fs[|fs| - 1].start
  {
  }

  lemma InOrderWidens(fs: seq<Finding>, from: nat, to: nat, to': nat)
    requires InOrder(fs, from, to) && to <= to'
    ensures InOrder(fs, from, to')
  {
  }

  lemma {:induction false} RedactedLast(s: string, from: nat, fs: seq<Finding>)
    requires fs != [] && from <= |s| && InOrder(fs, from, |s|)
    ensures from <= |Splice(s, fs[|fs| - 1])|
    ensures InOrder(fs[..|fs| - 1], from, |Splice(s, fs[|fs| - 1])|)
    ensures Redacted(Splice(s, fs[|fs| - 1]), from, fs[..|fs| - 1]) == Redacted(s, from, fs)
    decreases |fs|
  {
    hide Splice, Placeholder, InOrder, Redacted;
    var n := |fs| - 1;
    var last, s' := fs[n], Splice(s, fs[n]);
    InOrderParts(fs, from, |s|);
    SpliceParts(s, last, from);
    InOrderWidens(fs[..n], from, last.start, |s'|);
    if n == 0 {
      RedactedNone(s, last.end);
      RedactedNone(s', from);
      RedactedFirst(s, from, fs);
      assert fs[1..] == [] && fs[..n] == [];
    } else {
      var rest, init := fs[1..], fs[..n];
      assert rest[..n - 1] == init[1..] && rest[n - 1] == last && init[0] == fs[0];
      RedactedLast(s, fs[0].end, rest);
      SamePrefixSlice(s', s, last.start, from, fs[0].start);
      RedactedFirst(s, from, fs);
      RedactedFirst(s', from, init);
    }
  }

  lemma RedactedNone(s: string, from: nat)
    requires from <= |s|
    ensures InOrder([], from, |s|) && Redacted(s, from, []) == s[from..]
  {
  }

  lemma RedactedFirst(s: string, from: nat, fs: seq<Finding>)
    requires fs != [] && from <= |s| && InOrder(fs, from, |s|)
    ensures from <= fs[0].start < fs[0].end <= |s| && InOrder(fs[1..], fs[0].end, |s|)
    ensures Redacted(s, from, fs) == s[from..fs[0].start] + Placeholder(fs[0]) + Redacted(s, fs[0].end, fs[1..])
  {
  }

  lemma SamePrefixSlice(a: string, b: string, k: nat, i: nat, j: nat)
    requires i <= j <= k <= |a| && k <= |b| && a[..k] == b[..k]
    ensures a[i..j] == b[i..j]
  {
    assert a[i..j] == a[..k][i..j] && b[i..j] == b[..k][i..j];
  }

  lemma SpliceParts(s: string, f: Finding, from: nat)
    requires from <= f.start < f.end <= |s|
    ensures f.start <= |Splice(s, f)| && Splice(s, f)[..f.start] == s[..f.start]
    ensures Splice(s, f)[from..] == s[from..f.start] + Placeholder(f) + s[f.end..]
  {
    hide Placeholder;
  }

  lemma DescendingReversed(fs: seq<Finding>, n: nat)
    requires Disjoint(fs, n) && SortedBy(BY_START_DESCENDING, fs)
    ensures InOrder(Reverse(fs), 0, n)
  {
    var r := Reverse(fs);
    forall i, j | 0 <= i < j < |r| ensures r[i].end <= r[j].start {
      var a, b := |fs| - 1 - j, |fs| - 1 - i;
      assert a < b && r[j] == fs[a] && r[i] == fs[b];
      assert BY_START_DESCENDING(fs[a]) <= BY_START_DESCENDING(fs[b]);
      assert -(fs[a].start as int) <= -(fs[b].start as int);
    }
  }

  /** Masking equals the left-to-right specification, whatever order the analyzer reports its
      disjoint findings in. */
  lemma {:induction false} MaskingMeetsSpecification(s: string, results: seq<Finding>)
    requires Disjoint(results, |s|)
    ensures var ordered := SortBy(BY_START_DESCENDING, results);
            && InOrder(Reverse(ordered), 0, |s|)
            && multiset(Reverse(ordered)) == multiset(results)
            && SpliceAll(s, ordered) == Redacted(s, 0, Reverse(ordered))
  {
    hide SpliceAll, Redacted, Splice, Disjoint;
    var ordered := SortBy(BY_START_DESCENDING, results);
    SortBySorted(BY_START_DESCENDING, results);
    DisjointPermuted(results, ordered, |s|);
    ReverseMultiset(ordered);
    DescendingReversed(ordered, |s|);
    assert Reverse(Reverse(ordered)) == ordered;
    SpliceRightToLeft(s, Reverse(ordered));
  }

  lemma {:induction false} ReverseMultiset<T>(s: seq<T>)
    ensures multiset(Reverse(s)) == multiset(s)
  {
    if s != [] {
      var init := s[..|s| - 1];
      assert s == init + [s[|s| - 1]] && Reverse(s) == [s[|s| - 1]] + Reverse(init);
      ReverseMultiset(init);
    }
  }

  /** Disjointness does not depend on the order. */
  lemma DisjointPermuted(a: seq<Finding>, b: seq<Finding>, n: nat)
    requires Disjoint(a, n) && multiset(a) == multiset(b)
    ensures Disjoint(b, n)
  {
    forall i | 0 <= i < |b| ensures b[i].start < b[i].end <= n {
      assert b[i] in multiset(a);
    }
    forall i, j | 0 <= i < j < |b| ensures b[i].end <= b[j].start || b[j].end <= b[i].start {
      if b[i] == b[j] {
        TwoOccurrences(b, i, j);
        var k, l := PickTwo(a, b[i]);
      } else {
        assert b[i] in multiset(a) && b[j] in multiset(a);
        var k :| 0 <= k < |a| && a[k] == b[i];
        var l :| 0 <= l < |a| && a[l] == b[j];
      }
    }
  }

  lemma TwoOccurrences<T>(s: seq<T>, i: nat, j: nat)
    requires i < j < |s| && s[i] == s[j]
    ensures multiset(s)[s[i]] >= 2
  {
    assert s == s[..j] + [s[j]] + s[j + 1..];
    assert s[..j][i] == s[i] && s[i] in multiset(s[..j]);
  }

  lemma {:induction false} PickTwo<T>(s: seq<T>, x: T) returns (k: nat, l: nat)
    requires multiset(s)[x] >= 2
    ensures k < l < |s| && s[k] == s[l] == x
  {
    var init := s[..|s| - 1];
    assert s == init + [s[|s| - 1]];
    if s[|s| - 1] == x {
      l := |s| - 1;
      assert x in multiset(init);
      k :| 0 <= k < |init| && init[k] == x;
    } else {
      k, l := PickTwo(init, x);
    }
  }

  predicate Inside(p: nat, fs: seq<Finding>) {
    exists i :: 0 <= i < |fs| && fs[i].start <= p < fs[i].end
  }

  lemma InsideTail(p: nat, fs: seq<Finding>)
    requires fs != [] && fs[0].end <= p && Inside(p, fs)
    ensures Inside(p, fs[1..])
  {
    var i :| 0 <= i < |fs| && fs[i].start <= p < fs[i].end;
    assert fs[1..][i - 1] == fs[i];
  }

  /** The masked text reveals nothing about the masked ranges: texts that agree outside the
      findings are masked to the same result. */
  lemma {:induction false} RedactionHidesContent(s: string, t: string, from: nat, fs: seq<Finding>)
    requires |s| == |t| && from <= |s| && InOrder(fs, from, |s|)
    requires forall p :: from <= p < |s| && !Inside(p, fs) ==> s[p] == t[p]
    ensures Redacted(s, from, fs) == Redacted(t, from, fs)
    decreases |fs|
  {
    if fs == [] {
      assert s[from..] == t[from..];
    } else {
      forall p | from <= p < fs[0].start ensures s[p] == t[p] {
        assert !Inside(p, fs);
      }
      assert s[from..fs[0].start] == t[from..fs[0].start];
      forall p | fs[0].end <= p < |s| && !Inside(p, fs[1..]) ensures s[p] == t[p] {
        if Inside(p, fs) {
          InsideTail(p, fs);
        }
      }
      RedactionHidesContent(s, t, fs[0].end, fs[1..]);
    }
  }

  /** Overlapping findings are outside that guarantee: of the placeholder put in first, and what
      follows it, the later splice always cuts off as many characters as the findings overlap. */
  lemma OverlapCutsPlaceholder(s: string, f: Finding, o: Finding)
    requires o.start <= f.start < o.end && f.start < f.end <= |s|
    ensures var rest := Placeholder(f) + s[f.end..];
            SpliceAll(s, [f, o]) == s[..o.start] + Placeholder(o) + rest[Clamp(rest, o.end - f.start)..]
  {
    hide Placeholder, Splice, SpliceAll;
    SpliceTwo(s, f, o);
    SpliceIs(s, f);
    CutsInto(s, Placeholder(f) + s[f.end..], f.start, o);
  }

  lemma CutsInto(s: string, rest: string, from: nat, o: Finding)
    requires o.start <= from <= |s| && from < o.end
    ensures Splice(s[..from] + rest, o) == s[..o.start] + Placeholder(o) + rest[Clamp(rest, o.end - from)..]
  {
    hide Placeholder, Splice;
    var text := s[..from] + rest;
    SpliceIs(text, o);
    CutBehind(s[..from], rest, o.end);
    PrefixOfFront(s, rest, from, o.start);
    Regrouped(text[..o.start], Placeholder(o), text[Clamp(text, o.end)..]);
  }

  lemma SpliceTwo(s: string, f: Finding, o: Finding)
    ensures SpliceAll(s, [f, o]) == Splice(Splice(s, f), o)
  {
    hide Splice;
    assert [f, o][1..] == [o] && [o][1..] == [];
    assert SpliceAll(Splice(s, f), [o]) == SpliceAll(Splice(Splice(s, f), o), []);
  }

  lemma PrefixOfFront(s: string, rest: string, j: nat, i: nat)
    requires i <= j <= |s|
    ensures (s[..j] + rest)[..i] == s[..i]
  {
  }

  lemma Regrouped(a: string, b: string, c: string)
    ensures a + (b + c) == a + b + c
  {
  }

  lemma SpliceIs(s: string, f: Finding)
    requires f.start <= |s|
    ensures Splice(s, f) == s[..f.start] + (Placeholder(f) + s[Clamp(s, f.end)..])
  {
    hide Placeholder;
  }

  lemma CutBehind(a: string, b: string, k: nat)
    requires |a| <= k
    ensures (a + b)[Clamp(a + b, k)..] == b[Clamp(b, k - |a|)..]
  {
  }

  /** Nothing but the closing bracket may be left of it. */
  lemma OverlapDestroysLabel()
    ensures SpliceAll("abcdef", [Finding("B", 2, 6), Finding("A", 0, 4)]) == "[A]]"
  {
    var first := Finding("B", 2, 6);
    assert Splice("abcdef", first) == "ab[B]";
    assert Splice("ab[B]", Finding("A", 0, 4)) == "[A]]";
    assert [first, Finding("A", 0, 4)][1..] == [Finding("A", 0, 4)];
  }

  /** The first finding whose label is this one. */
  ghost predicate FirstUse(fs: seq<Finding>, l: string, p: nat) {
    p < |fs| && Label(fs[p].entity) == l && forall q :: 0 <= q < p ==> Label(fs[q].entity) != l
  }

  ghost predicate UsesOf(uses: seq<nat>, fs: seq<Finding>, labels: seq<string>) {
    && |uses| == |labels| && AscendingBelow(uses, |fs|)
    && forall i :: 0 <= i < |uses| ==> FirstUse(fs, labels[i], uses[i])
  }

  lemma UsesOfLonger(uses: seq<nat>, fs: seq<Finding>, labels: seq<string>, f: Finding)
    requires UsesOf(uses, fs, labels)
    ensures UsesOf(uses, fs + [f], labels)
  {
    hide Label;
  }

  lemma UsesOfNew(uses: seq<nat>, fs: seq<Finding>, labels: seq<string>, f: Finding)
    requires UsesOf(uses, fs, labels) && forall g :: g in fs ==> Label(g.entity) != Label(f.entity)
    ensures UsesOf(uses + [|fs|], fs + [f], labels + [Label(f.entity)])
  {
    hide Label;
    UsesOfLonger(uses, fs, labels, f);
    assert FirstUse(fs + [f], Label(f.entity), |fs|);
  }

  /** The labels stand in the order of their first use. */
  lemma {:induction false} LabelsInOrderOfUse(fs: seq<Finding>) returns (uses: seq<nat>)
    ensures UsesOf(uses, fs, LabelsOf(fs))
  {
    uses := [];
    if fs != [] {
      hide Label, UsesOf;
      var init, last := fs[..|fs| - 1], fs[|fs| - 1];
      assert fs == init + [last];
      uses := LabelsInOrderOfUse(init);
      if Label(last.entity) in LabelsOf(init) {
        UsesOfLonger(uses, init, LabelsOf(init), last);
      } else {
        UsesOfNew(uses, init, LabelsOf(init), last);
        uses := uses + [|init|];
      }
    }
  }

  /** The placeholders of the known entity types; any other type names itself. */
  lemma LabelsExact(entity: string)
    ensures Label("EMAIL_ADDRESS") == "EMAIL" && Label("PHONE_NUMBER") == "PHONE" && Label("IBAN_CODE") == "IBAN"
    ensures Label("CREDIT_CARD") == "CARD" && Label("US_SSN") == "SSN"
    ensures entity !in {"EMAIL_ADDRESS", "PHONE_NUMBER", "IBAN_CODE", "CREDIT_CARD", "US_SSN"} ==>
              Label(entity) == entity
  {
  }
}
