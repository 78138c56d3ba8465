/** The windows over a text, position by position. */
module WindowLaws {
  import opened Prelude
  import opened Text
  import opened Chunking

  /** Where the window from `lo` ends: at the end of the text if it reaches that far, otherwise at
      the last space strictly inside, otherwise at full size. */
  predicate EndsAt(t: string, lo: nat, hi: nat, size: nat) {
    && lo < hi <= |t|
    && if lo + size >= |t| then hi == |t|
       else
         || (lo < hi < lo + size && t[hi] == ' ' && forall p :: hi < p < lo + size ==> t[p] != ' ')
         || (hi == lo + size && forall p :: lo < p < lo + size ==> t[p] != ' ')
  }

  predicate Follows(ws: seq<Span>, overlap: nat, i: nat)
    requires i + 1 < |ws|
  {
    ws[i + 1].lo == if ws[i].hi - overlap > ws[i].lo + 1 then ws[i].hi - overlap else ws[i].lo + 1
  }

  lemma WindowEndExact(t: string, start: nat, size: nat)
    requires size >= 1 && start < |t|
    ensures var e := WindowEnd(t, start, size);
            EndsAt(t, start, if e < |t| then e else |t|, size) && (e >= |t| <==> start + size >= |t|)
  {
  }

  /** The first window starts at the given position, each next one at the larger of the last start
      plus one and the last end minus the overlap; each ends as the text demands, and only the
      last one reaches the end of the text. */
  lemma {:induction false} WindowsExact(t: string, start: nat, size: nat, overlap: nat)
    requires size >= 1 && start < |t|
    ensures var ws := Windows(t, start, size, overlap);
            && ws != [] && ws[0].lo == start
            && (forall i :: 0 <= i < |ws| ==> EndsAt(t, ws[i].lo, ws[i].hi, size))
            && (forall i :: 0 <= i < |ws| - 1 ==> Follows(ws, overlap, i))
            && (forall i :: 0 <= i < |ws| ==> (ws[i].hi == |t| <==> i == |ws| - 1))
    decreases |t| - start
  {
    hide WindowEnd, EndsAt;
    WindowEndExact(t, start, size);
    var end, ws := WindowEnd(t, start, size), Windows(t, start, size, overlap);
    if end < |t| {
      var next := NextStart(start, end, overlap);
      WindowsExact(t, next, size, overlap);
      var rest := Windows(t, next, size, overlap);
      assert ws == [Span(start, end)] + rest;
      forall i | 0 <= i < |ws| - 1 ensures Follows(ws, overlap, i) {
        assert i > 0 ==> Follows(rest, overlap, i - 1);
      }
    }
  }

  /** Each window shares as much with the next as the overlap says, unless it is too short. */
  lemma SharedCharacters(t: string, size: nat, overlap: nat, i: nat)
    requires size >= 1 && t != "" && i + 1 < |Windows(t, 0, size, overlap)|
    ensures var ws := Windows(t, 0, size, overlap);
            ws[i].hi - ws[i + 1].lo == if overlap < ws[i].hi - ws[i].lo - 1 then overlap else ws[i].hi - ws[i].lo - 1
  {
    hide Windows, EndsAt;
    WindowsExact(t, 0, size, overlap);
    assert Follows(Windows(t, 0, size, overlap), overlap, i);
    EndsBehind(t, Windows(t, 0, size, overlap)[i].lo, Windows(t, 0, size, overlap)[i].hi, size);
  }

  lemma EndsBehind(t: string, lo: nat, hi: nat, size: nat)
    requires EndsAt(t, lo, hi, size)
    ensures lo < hi
  {
  }

  /** `v` is the window without the blanks at its ends. */
  predicate StrippedOf(t: string, w: Span, v: Span) {
    && w.lo <= v.lo < v.hi <= w.hi <= |t|
    && (forall p :: w.lo <= p < v.lo ==> IsSpace(t[p])) && (forall p :: v.hi <= p < w.hi ==> IsSpace(t[p]))
    && !IsSpace(t[v.lo]) && !IsSpace(t[v.hi - 1])
  }

  predicate Blank(t: string, w: Span) {
    w.lo <= w.hi <= |t| && forall p :: w.lo <= p < w.hi ==> IsSpace(t[p])
  }

  /** `vs` are the windows at these positions, stripped; all others are blank. */
  ghost predicate KeptAt(t: string, ws: seq<Span>, vs: seq<Span>, idx: seq<nat>) {
    && AscendingBelow(idx, |ws|) && |vs| == |idx|
    && (forall i :: 0 <= i < |idx| ==> StrippedOf(t, ws[idx[i]], vs[i]))
    && (forall k :: 0 <= k < |ws| ==> k in idx || Blank(t, ws[k]))
  }

  lemma KeptBlank(t: string, ws: seq<Span>, vs: seq<Span>, idx: seq<nat>, w: Span)
    requires KeptAt(t, ws, vs, idx) && Blank(t, w)
    ensures KeptAt(t, ws + [w], vs, idx)
  {
    hide StrippedOf, Blank;
  }

  lemma KeptFilled(t: string, ws: seq<Span>, vs: seq<Span>, idx: seq<nat>, w: Span, v: Span)
    requires KeptAt(t, ws, vs, idx) && StrippedOf(t, w, v)
    ensures KeptAt(t, ws + [w], vs + [v], idx + [|ws|])
  {
    hide StrippedOf, Blank;
    var all := idx + [|ws|];
    forall k | 0 <= k < |ws| + 1 ensures k in all || Blank(t, (ws + [w])[k]) {
      assert all[|idx|] == |ws|;
      if k < |ws| && k in idx {
        var i :| 0 <= i < |idx| && idx[i] == k;
        assert all[i] == k;
      }
    }
  }

  /** The chunks are the stripped windows in order, without the blank ones. */
  lemma {:induction false} TrimmedExact(t: string, ws: seq<Span>) returns (idx: seq<nat>)
    requires InText(t, ws)
    ensures KeptAt(t, ws, Trimmed(t, ws), idx)
  {
    idx := [];
    if ws != [] {
      var init, w := ws[..|ws| - 1], ws[|ws| - 1];
      assert ws == init + [w];
      hide KeptAt, Strip;
      var before := TrimmedExact(t, init);
      StripIs(t, w);
      if Strip(t, w).lo < Strip(t, w).hi {
        KeptFilled(t, init, Trimmed(t, init), before, w, Strip(t, w));
        idx := before + [|init|];
      } else {
        KeptBlank(t, init, Trimmed(t, init), before, w);
        idx := before;
      }
    } else {
      NothingKept(t);
    }
  }

  lemma NothingKept(t: string)
    ensures KeptAt(t, [], [], [])
  {
  }

  lemma StripIs(t: string, w: Span)
    requires w.lo <= w.hi <= |t|
    ensures var v := Strip(t, w);
            if v.lo < v.hi then StrippedOf(t, w, v) else Blank(t, w)
  {
    hide IsSpace;
  }

  /** A text not longer than a chunk is one chunk, an empty one none. */
  lemma ShortTextExact(t: string, size: nat, overlap: nat)
    requires size >= 1 && |t| <= size
    ensures SliceAll(t, ChunkSpans(t, size, overlap)) == if t == "" then [] else [t]
  {
    WholeTextIsOneSlice(t);
  }
}
