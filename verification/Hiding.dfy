/** When masking hides what was found: where every character of the masked text comes from. */
module Hiding {
  import opened Prelude
  import opened Sorting
  import opened Masking

  /** A character of the masked text: one of the original, or one of a placeholder. */
  datatype Cell = Original(pos: nat) | Written(c: char)

  function Untouched(n: nat): seq<Cell> {
    seq(n, i requires 0 <= i < n => Original(i))
  }

  function Marks(s: string): seq<Cell> {
    seq(|s|, i requires 0 <= i < |s| => Written(s[i]))
  }

  function SpliceCells(cells: seq<Cell>, f: Finding): seq<Cell> {
    cells[..Clamp(cells, f.start)] + Marks(Placeholder(f)) + cells[Clamp(cells, f.end)..]
  }

  function SpliceAllCells(cells: seq<Cell>, fs: seq<Finding>): seq<Cell>
    decreases |fs|
  {
    if fs == [] then cells else SpliceAllCells(SpliceCells(cells, fs[0]), fs[1..])
  }

  /** The plan of the masked text of any text of length `n`; it depends on the offsets and the
      placeholders only. */
  function Layout(n: nat, fs: seq<Finding>): seq<Cell> {
    SpliceAllCells(Untouched(n), fs)
  }

  predicate Within(cells: seq<Cell>, n: nat) {
    forall k :: 0 <= k < |cells| && cells[k].Original? ==> cells[k].pos < n
  }

  function Show(c: Cell, s: string): char
    requires c.Original? ==> c.pos < |s|
  {
    if c.Original? then s[c.pos] else c.c
  }

  function Render(cells: seq<Cell>, s: string): string
    requires Within(cells, |s|)
  {
    seq(|cells|, k requires 0 <= k < |cells| => Show(cells[k], s))
  }

  lemma SpliceRenders(cells: seq<Cell>, f: Finding, s: string)
    requires Within(cells, |s|)
    ensures Within(SpliceCells(cells, f), |s|)
    ensures Render(SpliceCells(cells, f), s) == Splice(Render(cells, s), f)
  {
    hide Placeholder;
  }

  lemma {:induction false} SpliceAllRenders(cells: seq<Cell>, fs: seq<Finding>, s: string)
    requires Within(cells, |s|)
    ensures Within(SpliceAllCells(cells, fs), |s|)
    ensures Render(SpliceAllCells(cells, fs), s) == SpliceAll(Render(cells, s), fs)
    decreases |fs|
  {
    hide Splice, SpliceCells, Render, Within;
    if fs != [] {
      SpliceRenders(cells, fs[0], s);
      SpliceAllRenders(SpliceCells(cells, fs[0]), fs[1..], s);
    }
  }

  /** Splicing any findings in any order is rendering the layout. */
  lemma MaskedIsRendered(s: string, fs: seq<Finding>)
    ensures Within(Layout(|s|, fs), |s|)
    ensures SpliceAll(s, fs) == Render(Layout(|s|, fs), s)
  {
    hide SpliceAllCells, SpliceAll;
    assert Render(Untouched(|s|), s) == s;
    SpliceAllRenders(Untouched(|s|), fs, s);
  }

  // ------------------------------------------------------------ hiding

  predicate AgreeOutside(s: string, t: string, fs: seq<Finding>) {
    |s| == |t| && forall p :: 0 <= p < |s| && !Inside(p, fs) ==> s[p] == t[p]
  }

  /** The masked text tells nothing about the characters inside the findings. */
  ghost predicate Hides(n: nat, fs: seq<Finding>) {
    forall s, t | |s| == n && AgreeOutside(s, t, fs) :: SpliceAll(s, fs) == SpliceAll(t, fs)
  }

  /** No character inside a finding is left in the layout. */
  predicate NothingLeft(n: nat, fs: seq<Finding>) {
    var cells := Layout(n, fs);
    forall k :: 0 <= k < |cells| && cells[k].Original? ==> !Inside(cells[k].pos, fs)
  }

  /** For every list of findings in every order, overlapping or not: whether masking hides them
      can be read off their offsets and placeholders. */
  lemma HidesIffNothingLeft(n: nat, fs: seq<Finding>)
    ensures Hides(n, fs) <==> NothingLeft(n, fs)
  {
    hide Layout, SpliceAll, Inside;
    var cells := Layout(n, fs);
    if NothingLeft(n, fs) {
      forall s, t | |s| == n && AgreeOutside(s, t, fs) ensures SpliceAll(s, fs) == SpliceAll(t, fs) {
        MaskedIsRendered(s, fs);
        MaskedIsRendered(t, fs);
        assert Render(cells, s) == Render(cells, t);
      }
    } else {
      var k :| 0 <= k < |cells| && cells[k].Original? && Inside(cells[k].pos, fs);
      var s := seq(n, i => 'a');
      MaskedIsRendered(s, fs);
      var t := s[cells[k].pos := 'b'];
      MaskedIsRendered(t, fs);
      assert AgreeOutside(s, t, fs);
      assert Render(cells, s)[k] == 'a' && Render(cells, t)[k] == 'b';
    }
  }

  // ------------------------------------------------------------ two overlapping findings

  function Length(f: Finding): int {
    f.end - f.start
  }

  /** `f` is spliced before the overlapping `o`: `o` ends no later, or the placeholder of `f` is
      not longer than what it replaces. */
  predicate Harmless(f: Finding, o: Finding) {
    o.end <= f.end || |Placeholder(f)| <= Length(f)
  }

  /** Where the cells of a spliced text come from. */
  lemma CellsOfSplice(cells: seq<Cell>, f: Finding)
    requires f.start < f.end && f.start <= |cells|
    ensures var next, size := SpliceCells(cells, f), |Placeholder(f)|;
            && (f.end <= |cells| ==> |next| == |cells| + size - Length(f))
            && (f.end > |cells| ==> |next| == f.start + size)
            && (forall k :: 0 <= k < f.start ==> next[k] == cells[k])
            && (forall k :: f.start <= k < f.start + size ==> next[k].Written?)
            && (forall k :: f.start + size <= k < |next| ==>
                  k - size + Length(f) < |cells| && next[k] == cells[k - size + Length(f)])
  {
    hide Placeholder;
  }

  lemma LayoutOfTwo(n: nat, f: Finding, o: Finding)
    requires o.start <= f.start < o.end <= n && f.start < f.end <= n
    ensures var cells := SpliceCells(Untouched(n), f);
            Layout(n, [f, o]) == SpliceCells(cells, o) && |cells| == n + |Placeholder(f)| - Length(f)
  {
    hide Placeholder;
    hide SpliceCells;
    var cells := SpliceCells(Untouched(n), f);
    assert [f, o][1..] == [o] && [o][1..] == [];
    CellsOfSplice(Untouched(n), f);
    assert SpliceAllCells(cells, [o]) == SpliceAllCells(SpliceCells(cells, o), []);
  }

  /** The layout of two overlapping findings, counted from its end: behind the second finding
      comes what the first one left there. */
  lemma CellsOfTwo(n: nat, f: Finding, o: Finding, k: nat)
    requires o.start <= f.start < o.end <= n && f.start < f.end <= n
    ensures var cells, shift := Layout(n, [f, o]), |Placeholder(o)| - Length(o);
            var size := |Placeholder(f)|;
            && |cells| == (if o.end <= n + size - Length(f)
                           then n + size - Length(f) + shift else o.start + |Placeholder(o)|)
            && (k < o.start ==> cells[k] == Original(k))
            && (o.start <= k < |cells| && cells[k].Original? ==>
                  && k - shift >= o.end && k - shift >= f.start + size
                  && cells[k] == Original(k - shift - size + Length(f)))
            && (o.start <= k < |cells| && k - shift >= o.end && k - shift >= f.start + size ==> cells[k].Original?)
  {
    hide Placeholder, Layout, SpliceCells;
    LayoutOfTwo(n, f, o);
    CellsOfSplice(Untouched(n), f);
    CellsOfSplice(SpliceCells(Untouched(n), f), o);
  }

  lemma InsideTwo(p: nat, f: Finding, o: Finding)
    ensures Inside(p, [f, o]) <==> f.start <= p < f.end || o.start <= p < o.end
  {
    assert [f, o][0] == f && [f, o][1] == o;
  }

  /** Two overlapping findings are hidden exactly if they are harmless to each other. */
  lemma OverlapHidesIff(n: nat, f: Finding, o: Finding)
    requires o.start <= f.start < o.end <= n && f.start < f.end <= n
    ensures Hides(n, [f, o]) <==> Harmless(f, o)
  {
    hide Placeholder, Hides, Layout, Inside;
    HidesIffNothingLeft(n, [f, o]);
    var cells, size, shift := Layout(n, [f, o]), |Placeholder(f)|, |Placeholder(o)| - Length(o);
    if Harmless(f, o) {
      forall k | 0 <= k < |cells| && cells[k].Original? ensures !Inside(cells[k].pos, [f, o]) {
        CellsOfTwo(n, f, o, k);
        InsideTwo(cells[k].pos, f, o);
      }
    } else {
      var i := if o.end >= f.start + size then o.end else f.start + size;
      CellsOfTwo(n, f, o, i + shift);
      InsideTwo(cells[i + shift].pos, f, o);
    }
  }

  // ------------------------------------------------------------ any number of findings

  predicate Descending(fs: seq<Finding>, n: nat) {
    && (forall i :: 0 <= i < |fs| ==> fs[i].start < fs[i].end <= n)
    && (forall i, j :: 0 <= i < j < |fs| ==> fs[j].start <= fs[i].start)
  }

  /** Every two findings that overlap are harmless. */
  predicate AllHarmless(fs: seq<Finding>) {
    forall i, j :: 0 <= i < j < |fs| && fs[i].start < fs[j].end ==> Harmless(fs[i], fs[j])
  }

  predicate Lengthens(f: Finding) {
    |Placeholder(f)| > Length(f)
  }

  /** What holds of the cells when `done` is spliced and `front` is the last start: the front is
      untouched, nothing found is left, and a character was only ever moved to the right by a
      placeholder to its left. */
  predicate Masked(cells: seq<Cell>, done: seq<Finding>, front: nat) {
    && front <= |cells|
    && (forall k :: 0 <= k < front ==> cells[k] == Original(k))
    && (forall k :: front <= k < |cells| && cells[k].Original? ==>
          && cells[k].pos >= front
          && !Inside(cells[k].pos, done)
          && (k > cells[k].pos ==> exists f :: f in done && f.end <= cells[k].pos && Lengthens(f)))
  }

  lemma MaskedStep(cells: seq<Cell>, done: seq<Finding>, front: nat, o: Finding)
    requires Masked(cells, done, front) && o.start <= front && o.start < o.end
    requires forall f :: f in done ==> front <= f.start < f.end
    requires forall f :: f in done && f.start < o.end ==> Harmless(f, o)
    ensures Masked(SpliceCells(cells, o), done + [o], o.start)
  {
    hide Placeholder, Inside, SpliceCells;
    var next, size := SpliceCells(cells, o), |Placeholder(o)|;
    CellsOfSplice(cells, o);
    forall k | o.start <= k < |next| && next[k].Original?
      ensures next[k].pos >= o.start && !Inside(next[k].pos, done + [o])
      ensures k > next[k].pos ==> exists f :: f in done + [o] && f.end <= next[k].pos && Lengthens(f)
    {
      var j := k - size + Length(o);
      assert next[k] == cells[j];
      CellStaysMasked(cells, done, front, o, j);
      InsideEither(cells[j].pos, done, o);
      if k > cells[j].pos {
        if Lengthens(o) {
          assert o in done + [o];
        } else {
          var f :| f in done && f.end <= cells[j].pos && Lengthens(f);
          assert f in done + [o];
        }
      }
    }
  }

  /** What remains behind the new finding is outside it. */
  lemma CellStaysMasked(cells: seq<Cell>, done: seq<Finding>, front: nat, o: Finding, j: nat)
    requires Masked(cells, done, front) && o.start <= front && o.start < o.end <= j < |cells| && cells[j].Original?
    requires forall f :: f in done ==> front <= f.start < f.end
    requires forall f :: f in done && f.start < o.end ==> Harmless(f, o)
    ensures cells[j].pos >= o.end && !Inside(cells[j].pos, done)
    ensures j > cells[j].pos ==> exists f :: f in done && f.end <= cells[j].pos && Lengthens(f)
  {
    hide Placeholder;
  }

  lemma InsideEither(p: nat, done: seq<Finding>, o: Finding)
    ensures Inside(p, done + [o]) ==> Inside(p, done) || o.start <= p < o.end
  {
    if Inside(p, done + [o]) {
      var i :| 0 <= i < |done + [o]| && (done + [o])[i].start <= p < (done + [o])[i].end;
      assert i < |done| ==> (done + [o])[i] == done[i];
    }
  }

  lemma {:induction false} AllMasked(cells: seq<Cell>, done: seq<Finding>, front: nat, fs: seq<Finding>, n: nat)
    returns (last: nat)
    requires Descending(done + fs, n) && AllHarmless(done + fs)
    requires Masked(cells, done, front)
    requires forall f :: f in fs ==> f.start <= front
    requires forall f :: f in done ==> f.start >= front
    ensures Masked(SpliceAllCells(cells, fs), done + fs, last)
    ensures forall f :: f in done + fs ==> f.start >= last
    decreases |fs|
  {
    if fs == [] {
      assert done + fs == done;
      last := front;
    } else {
      var o, all := fs[0], done + fs;
      assert all[|done|] == o && done + [o] + fs[1..] == all;
      assert forall i :: 0 <= i < |done| ==> all[i] == done[i];
      assert forall i :: 0 <= i < |fs| ==> all[|done| + i] == fs[i];
      hide Masked, Harmless, SpliceCells;
      MaskedStep(cells, done, front, o);
      last := AllMasked(SpliceCells(cells, o), done + [o], o.start, fs[1..], n);
    }
  }

  lemma MaskedLeavesNothing(n: nat, fs: seq<Finding>, last: nat)
    requires Masked(Layout(n, fs), fs, last) && forall f :: f in fs ==> f.start >= last
    ensures NothingLeft(n, fs)
  {
    hide Layout;
  }

  lemma UntouchedIsMasked(n: nat)
    ensures Masked(Untouched(n), [], n)
  {
  }

  /** Findings spliced by descending start are hidden if every two that overlap are harmless. */
  lemma HarmlessFindingsAreHidden(n: nat, fs: seq<Finding>)
    requires Descending(fs, n) && AllHarmless(fs)
    ensures Hides(n, fs)
  {
    assert forall f :: f in fs ==> f.start <= n;
    assert [] + fs == fs;
    hide Hides, AllHarmless, Descending, Masked, NothingLeft, Untouched;
    UntouchedIsMasked(n);
    var last := AllMasked(Untouched(n), [], n, fs, n);
    MaskedLeavesNothing(n, fs, last);
    HidesIffNothingLeft(n, fs);
  }

  // ------------------------------------------------------------ what the analyzer reports

  predicate InBounds(results: seq<Finding>, n: nat) {
    forall i :: 0 <= i < |results| ==> results[i].start < results[i].end <= n
  }

  /** For results in any order: masking them in the order the loop takes them hides them exactly
      if their layout leaves nothing, and that is so whenever the overlapping ones are harmless. */
  lemma MaskingHidesFindings(results: seq<Finding>, n: nat)
    requires InBounds(results, n)
    ensures var ordered := SortBy(BY_START_DESCENDING, results);
            && (Hides(n, ordered) <==> NothingLeft(n, ordered))
            && (AllHarmless(ordered) ==> Hides(n, ordered))
  {
    var ordered := SortBy(BY_START_DESCENDING, results);
    SortBySorted(BY_START_DESCENDING, results);
    HidesIffNothingLeft(n, ordered);
    forall i | 0 <= i < |ordered| ensures ordered[i].start < ordered[i].end <= n {
      assert ordered[i] in multiset(results);
    }
    forall i, j | 0 <= i < j < |ordered| ensures ordered[j].start <= ordered[i].start {
      assert BY_START_DESCENDING(ordered[i]) <= BY_START_DESCENDING(ordered[j]);
    }
    hide Hides, AllHarmless, NothingLeft;
    if AllHarmless(ordered) {
      HarmlessFindingsAreHidden(n, ordered);
    }
  }

  /** A short name inside a long address: the placeholder of the name is longer than the name,
      and the end of the address stays readable. */
  lemma NestedFindingLeaks()
    ensures SpliceAll("abcdefgh", [Finding("PERSON", 2, 4), Finding("LOCATION", 0, 8)]) == "[LOCATION]N]efgh"
    ensures !Hides(8, [Finding("PERSON", 2, 4), Finding("LOCATION", 0, 8)])
  {
    hide Hides, SpliceAll, Splice;
    var first, second := Finding("PERSON", 2, 4), Finding("LOCATION", 0, 8);
    NestedIsHarmful(first, second);
    OverlapHidesIff(8, first, second);
    NestedSplices(first, second);
    SpliceTwo("abcdefgh", first, second);
  }

  lemma NestedIsHarmful(first: Finding, second: Finding)
    requires first == Finding("PERSON", 2, 4) && second == Finding("LOCATION", 0, 8)
    ensures !Harmless(first, second)
  {
    assert Placeholder(first) == "[PERSON]";
  }

  lemma NestedSplices(first: Finding, second: Finding)
    requires first == Finding("PERSON", 2, 4) && second == Finding("LOCATION", 0, 8)
    ensures Splice("abcdefgh", first) == "ab[PERSON]efgh"
    ensures Splice("ab[PERSON]efgh", second) == "[LOCATION]N]efgh"
  {
  }
}
