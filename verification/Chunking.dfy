/** The overlapping-window splitter of the ingestion pipeline. */
module Chunking {
  import opened Text

  /** A half-open range of positions. */
  datatype Span = Span(lo: nat, hi: nat)

  // ------------------------------------------------------------ normalised text

  /** No blank but the space, and none at the ends. */
  predicate Normal(t: string) {
    && (forall i :: 0 <= i < |t| ==> IsSpace(t[i]) ==> t[i] == ' ')
    && (t != "" ==> t[0] != ' ' && t[|t| - 1] != ' ')
  }

  lemma {:induction false} JoinNormal(ws: seq<string>)
    requires AllWords(ws)
    ensures Normal(Join(ws))
    ensures ws != [] ==> Join(ws) != "" && Join(ws)[0] == ws[0][0]
  {
    if |ws| > 1 {
      JoinNormal(ws[1..]);
      var t, rest := Join(ws), Join(ws[1..]);
      assert t == ws[0] + " " + rest;
      assert forall i :: 0 <= i < |ws[0]| ==> t[i] == ws[0][i];
      assert forall i :: |ws[0]| < i < |t| ==> t[i] == rest[i - |ws[0]| - 1];
    }
  }

  /** `[a, b)` is one whole word of the text. */
  predicate WordAt(t: string, a: nat, b: nat) {
    && a < b <= |t|
    && (forall i :: a <= i < b ==> t[i] != ' ')
    && (a > 0 ==> t[a - 1] == ' ')
    && (b < |t| ==> t[b] == ' ')
  }

  lemma WordShifted(p: string, rest: string, a: nat, b: nat)
    requires WordAt(rest, a, b)
    ensures WordAt(p + " " + rest, |p| + 1 + a, |p| + 1 + b)
    ensures (p + " " + rest)[|p| + 1 + a..|p| + 1 + b] == rest[a..b]
  {
    var t, d := p + " " + rest, |p| + 1;
    assert t[|p|] == ' ';
    assert forall i :: d <= i < |t| ==> t[i] == rest[i - d];
  }

  /** Every word of the split text stands somewhere in the joined text. */
  lemma {:induction false} WordsStandInJoin(ws: seq<string>, k: nat) returns (a: nat)
    requires AllWords(ws) && k < |ws|
    ensures WordAt(Join(ws), a, a + |ws[k]|) && Join(ws)[a..a + |ws[k]|] == ws[k]
  {
    if |ws| == 1 {
      a := 0;
    } else if k == 0 {
      a := 0;
      assert Join(ws) == ws[0] + (" " + Join(ws[1..]));
      assert Join(ws)[|ws[0]|] == ' ';
    } else {
      var a' := WordsStandInJoin(ws[1..], k - 1);
      WordShifted(ws[0], Join(ws[1..]), a', a' + |ws[k]|);
      a := |ws[0]| + 1 + a';
    }
  }

  // ------------------------------------------------------------ the windows

  /** `t.rfind(" ", start, end)`, as an optional position: `start` stands for "none useful". */
  function LastSpace(t: string, start: nat, end: nat): (b: nat)
    requires start <= end <= |t|
    ensures start <= b && (b == start || (b < end && t[b] == ' '))
    ensures forall i :: b < i < end ==> t[i] != ' '
    decreases end
  {
    if end == start then start
    else if t[end - 1] == ' ' then end - 1
    else LastSpace(t, start, end - 1)
  }

  /** Where the window from `start` ends: at the last space strictly inside, if any. */
  function WindowEnd(t: string, start: nat, size: nat): (e: nat)
    requires start < |t| && size >= 1
    ensures start < e <= start + size
  {
    var end := start + size;
    if end < |t| && LastSpace(t, start, end) > start then LastSpace(t, start, end) else end
  }

  function NextStart(start: nat, end: nat, overlap: nat): (s: nat)
    requires start < end
    ensures start < s <= end
  {
    if end - overlap > start + 1 then end - overlap else start + 1
  }

  /** The window ranges, clipped to the text, from `start` on. */
  function Windows(t: string, start: nat, size: nat, overlap: nat): seq<Span>
    requires size >= 1
    decreases |t| - start
  {
    if start >= |t| then []
    else
      var end := WindowEnd(t, start, size);
      if end >= |t| then [Span(start, |t|)]
      else [Span(start, end)] + Windows(t, NextStart(start, end, overlap), size, overlap)
  }

  /** `s.strip()` as a range: drops blanks at both ends. */
  function StripLeft(t: string, w: Span): (r: Span)
    requires w.lo <= w.hi <= |t|
    ensures w.lo <= r.lo <= r.hi == w.hi
    ensures forall i :: w.lo <= i < r.lo ==> IsSpace(t[i])
    ensures r.lo < r.hi ==> !IsSpace(t[r.lo])
    decreases w.hi - w.lo
  {
    if w.lo < w.hi && IsSpace(t[w.lo]) then StripLeft(t, Span(w.lo + 1, w.hi)) else w
  }

  function StripRight(t: string, w: Span): (r: Span)
    requires w.lo <= w.hi <= |t|
    ensures w.lo == r.lo <= r.hi <= w.hi
    ensures forall i :: r.hi <= i < w.hi ==> IsSpace(t[i])
    ensures r.lo < r.hi ==> !IsSpace(t[r.hi - 1])
    decreases w.hi - w.lo
  {
    if w.lo < w.hi && IsSpace(t[w.hi - 1]) then StripRight(t, Span(w.lo, w.hi - 1)) else w
  }

  function Strip(t: string, w: Span): (r: Span)
    requires w.lo <= w.hi <= |t|
    ensures w.lo <= r.lo <= r.hi <= w.hi
    ensures forall i :: w.lo <= i < w.hi && !(r.lo <= i < r.hi) ==> IsSpace(t[i])
    ensures r.lo < r.hi ==> !IsSpace(t[r.lo]) && !IsSpace(t[r.hi - 1])
  {
    StripRight(t, StripLeft(t, w))
  }

  function Slice(t: string, w: Span): string
    requires w.lo <= w.hi <= |t|
  {
    t[w.lo..w.hi]
  }

  predicate InText(t: string, ws: seq<Span>) {
    forall i :: 0 <= i < |ws| ==> ws[i].lo <= ws[i].hi <= |t|
  }

  lemma {:induction false} WindowsInText(t: string, start: nat, size: nat, overlap: nat)
    requires size >= 1
    ensures InText(t, Windows(t, start, size, overlap))
    decreases |t| - start
  {
    if start < |t| {
      var end := WindowEnd(t, start, size);
      if end < |t| {
        WindowsInText(t, NextStart(start, end, overlap), size, overlap);
      }
    }
  }

  /** Strips every window and drops the empty ones. */
  function Trimmed(t: string, ws: seq<Span>): (r: seq<Span>)
    requires InText(t, ws)
    ensures InText(t, r)
  {
    if ws == [] then []
    else
      var w := Strip(t, ws[|ws| - 1]);
      Trimmed(t, ws[..|ws| - 1]) + if w.lo < w.hi then [w] else []
  }

  lemma {:induction false} TrimmedKeeps(t: string, ws: seq<Span>, k: nat)
    requires InText(t, ws) && k < |ws|
    requires Strip(t, ws[k]).lo < Strip(t, ws[k]).hi
    ensures Strip(t, ws[k]) in Trimmed(t, ws)
  {
    if k < |ws| - 1 {
      TrimmedKeeps(t, ws[..|ws| - 1], k);
    }
  }

  lemma {:induction false} TrimmedComesFrom(t: string, ws: seq<Span>, v: Span) returns (k: nat)
    requires InText(t, ws) && v in Trimmed(t, ws)
    ensures k < |ws| && v == Strip(t, ws[k]) && v.lo < v.hi
  {
    if v in Trimmed(t, ws[..|ws| - 1]) {
      k := TrimmedComesFrom(t, ws[..|ws| - 1], v);
    } else {
      k := |ws| - 1;
    }
  }

  function SliceAll(t: string, ws: seq<Span>): (r: seq<string>)
    requires InText(t, ws)
    ensures |r| == |ws|
    ensures forall i :: 0 <= i < |r| ==> r[i] == Slice(t, ws[i])
  {
    if ws == [] then [] else SliceAll(t, ws[..|ws| - 1]) + [Slice(t, ws[|ws| - 1])]
  }

  /** The stripped windows as text, empty ones included: what the loop collects. */
  function Pieces(t: string, ws: seq<Span>): seq<string>
    requires InText(t, ws)
  {
    if ws == [] then [] else Pieces(t, ws[..|ws| - 1]) + [Slice(t, Strip(t, ws[|ws| - 1]))]
  }

  /** `[chunk for chunk in chunks if chunk]`. */
  function NonEmpty(chunks: seq<string>): seq<string> {
    if chunks == [] then []
    else
      var last := chunks[|chunks| - 1];
      NonEmpty(chunks[..|chunks| - 1]) + if last != "" then [last] else []
  }

  lemma {:induction false} NonEmptyPieces(t: string, ws: seq<Span>)
    requires InText(t, ws)
    ensures NonEmpty(Pieces(t, ws)) == SliceAll(t, Trimmed(t, ws))
  {
    if ws != [] {
      var init, w := ws[..|ws| - 1], Strip(t, ws[|ws| - 1]);
      assert Pieces(t, ws)[..|Pieces(t, ws)| - 1] == Pieces(t, init);
      NonEmptyPieces(t, init);
      if w.lo < w.hi {
        assert Trimmed(t, ws) == Trimmed(t, init) + [w];
        assert Trimmed(t, ws)[..|Trimmed(t, ws)| - 1] == Trimmed(t, init);
      }
    }
  }

  /** The ranges of the normalised text that become chunks. */
  function ChunkSpans(t: string, size: nat, overlap: nat): (r: seq<Span>)
    requires size >= 1
    ensures InText(t, r)
  {
    if t == "" then []
    else if |t| <= size then [Span(0, |t|)]
    else WindowsInText(t, 0, size, overlap); Trimmed(t, Windows(t, 0, size, overlap))
  }

  // ------------------------------------------------------------ the loop

  lemma WindowStep(t: string, start: nat, size: nat, overlap: nat, done: seq<Span>)
    requires size >= 1 && start < |t|
    ensures var end := WindowEnd(t, start, size);
            done + Windows(t, start, size, overlap) ==
            if end >= |t| then done + [Span(start, |t|)]
            else (done + [Span(start, end)]) + Windows(t, NextStart(start, end, overlap), size, overlap)
  {
  }

  lemma PiecesExtended(t: string, ws: seq<Span>, w: Span)
    requires InText(t, ws) && w.lo <= w.hi <= |t|
    ensures InText(t, ws + [w]) && Pieces(t, ws + [w]) == Pieces(t, ws) + [Slice(t, Strip(t, w))]
  {
    assert (ws + [w])[..|ws|] == ws;
  }

  lemma WholeTextIsOneSlice(t: string)
    ensures SliceAll(t, [Span(0, |t|)]) == [t]
  {
    assert Slice(t, Span(0, |t|)) == t;
  }

  /** `chunk_text`: the chunks are exactly the slices named by `ChunkSpans`. */
  method ChunkText(text: string, size: nat, overlap: nat) returns (chunks: seq<string>)
    requires size >= 1
    ensures chunks == SliceAll(Normalise(text), ChunkSpans(Normalise(text), size, overlap))
  {
    hide Normalise, Strip, Trimmed, NonEmpty, LastSpace, Windows, Pieces, Slice;
    var t := Normalise(text);
    if t == "" {
      return [];
    }
    if |t| <= size {
      WholeTextIsOneSlice(t);
      return [t];
    }
    chunks := [];
    var start := 0;
    ghost var windows, done: seq<Span> := Windows(t, 0, size, overlap), [];
    WindowsInText(t, 0, size, overlap);
    NoPieces(t);
    while start < |t|
      invariant InText(t, done)
      invariant done + Windows(t, start, size, overlap) == windows
      invariant chunks == Pieces(t, done)
      decreases |t| - start
    {
      WindowStep(t, start, size, overlap, done);
      var end := start + size;
      if end < |t| {
        var boundary := LastSpace(t, start, end);
        if boundary > start {
          end := boundary;
        }
      }
      var w := Span(start, if end <= |t| then end else |t|);
      PiecesExtended(t, done, w);
      chunks := chunks + [Slice(t, Strip(t, w))];
      done := done + [w];
      if end >= |t| {
        break;
      }
      start := if end - overlap > start + 1 then end - overlap else start + 1;
    }
    if start >= |t| {
      NoWindows(t, start, size, overlap);
    }
    assert done == windows;
    NonEmptyPieces(t, done);
    chunks := NonEmpty(chunks);
  }

  lemma NoPieces(t: string)
    ensures Pieces(t, []) == []
  {
  }

  lemma NoWindows(t: string, start: nat, size: nat, overlap: nat)
    requires size >= 1 && start >= |t|
    ensures Windows(t, start, size, overlap) == []
  {
  }

  // ------------------------------------------------------------ what the windows guarantee

  /** Windows leave no gap: every position from `start` on lies in one. */
  lemma {:induction false} WindowsCover(t: string, start: nat, size: nat, overlap: nat, p: nat) returns (w: Span)
    requires size >= 1 && start <= p < |t|
    ensures w in Windows(t, start, size, overlap) && w.lo <= p < w.hi
    decreases |t| - start
  {
    var end := WindowEnd(t, start, size);
    if end >= |t| {
      w := Span(start, |t|);
    } else if p < end {
      w := Span(start, end);
      assert w == Windows(t, start, size, overlap)[0];
    } else {
      w := WindowsCover(t, NextStart(start, end, overlap), size, overlap, p);
      assert w in Windows(t, NextStart(start, end, overlap), size, overlap);
    }
  }

  /** A word shorter than the window size lies whole in one window, although windows may start
      in the middle of a word. */
  lemma {:induction false} WindowsKeepWords(t: string, start: nat, size: nat, overlap: nat, a: nat, b: nat)
    returns (w: Span)
    requires size >= 1 && WordAt(t, a, b) && start <= a && b - a < size
    ensures w in Windows(t, start, size, overlap) && w.lo <= a && b <= w.hi
    decreases |t| - start
  {
    var end := WindowEnd(t, start, size);
    if end >= |t| {
      w := Span(start, |t|);
    } else if b <= end {
      w := Span(start, end);
      assert w == Windows(t, start, size, overlap)[0];
    } else {
      var next := NextStart(start, end, overlap);
      WindowNeverEndsInShortWord(t, start, size, a, b);
      w := WindowsKeepWords(t, next, size, overlap, a, b);
      assert w in Windows(t, next, size, overlap);
    }
  }

  /** The heart of the argument: a window that starts at or before a short word and does not
      contain it ends at or before its first letter. */
  lemma WindowNeverEndsInShortWord(t: string, start: nat, size: nat, a: nat, b: nat)
    requires size >= 1 && WordAt(t, a, b) && start <= a && b - a < size
    requires WindowEnd(t, start, size) < b
    ensures WindowEnd(t, start, size) <= a
  {
  }

  predicate Fit(ws: seq<Span>, size: nat) {
    forall i :: 0 <= i < |ws| ==> ws[i].lo < ws[i].hi <= ws[i].lo + size
  }

  lemma {:induction false} WindowSizes(t: string, start: nat, size: nat, overlap: nat)
    requires size >= 1
    ensures Fit(Windows(t, start, size, overlap), size)
    decreases |t| - start
  {
    if start < |t| {
      var end := WindowEnd(t, start, size);
      if end < |t| {
        WindowSizes(t, NextStart(start, end, overlap), size, overlap);
      }
    }
  }

  /** Every chunk is non-empty, fits the limit and neither starts nor ends with a blank. */
  lemma ChunkSizes(t: string, size: nat, overlap: nat, v: Span)
    requires size >= 1 && Normal(t) && v in ChunkSpans(t, size, overlap)
    ensures v.lo < v.hi <= v.lo + size && v.hi <= |t|
    ensures !IsSpace(t[v.lo]) && !IsSpace(t[v.hi - 1])
  {
    WindowsInText(t, 0, size, overlap);
    WindowSizes(t, 0, size, overlap);
    if |t| > size {
      TrimmedSizes(t, Windows(t, 0, size, overlap), size, v);
    }
  }

  lemma {:induction false} TrimmedSizes(t: string, ws: seq<Span>, size: nat, v: Span)
    requires InText(t, ws) && Fit(ws, size) && v in Trimmed(t, ws)
    ensures v.lo < v.hi <= v.lo + size && v.hi <= |t|
    ensures !IsSpace(t[v.lo]) && !IsSpace(t[v.hi - 1])
  {
    var k := TrimmedComesFrom(t, ws, v);
  }

  lemma StrippedWindowIsChunk(t: string, size: nat, overlap: nat, w: Span)
    requires size >= 1 && |t| > size && w in Windows(t, 0, size, overlap)
    ensures w.lo <= w.hi <= |t|
    ensures Strip(t, w).lo < Strip(t, w).hi ==> Strip(t, w) in ChunkSpans(t, size, overlap)
  {
    var ws := Windows(t, 0, size, overlap);
    WindowsInText(t, 0, size, overlap);
    var k :| 0 <= k < |ws| && ws[k] == w;
    if Strip(t, w).lo < Strip(t, w).hi {
      TrimmedKeeps(t, ws, k);
    }
  }

  /** No letter of the normalised text is skipped. */
  lemma EveryLetterInSomeChunk(t: string, size: nat, overlap: nat, p: nat) returns (v: Span)
    requires size >= 1 && p < |t| && !IsSpace(t[p])
    ensures v in ChunkSpans(t, size, overlap) && v.lo <= p < v.hi
  {
    if |t| <= size {
      v := Span(0, |t|);
    } else {
      var w := WindowsCover(t, 0, size, overlap, p);
      StrippedWindowIsChunk(t, size, overlap, w);
      v := Strip(t, w);
    }
  }

  lemma ShortWordInSomeSpan(t: string, size: nat, overlap: nat, a: nat, b: nat) returns (v: Span)
    requires size >= 1 && Normal(t) && WordAt(t, a, b) && b - a < size
    ensures v in ChunkSpans(t, size, overlap) && v.lo <= a && b <= v.hi
  {
    if |t| <= size {
      v := Span(0, |t|);
    } else {
      var w := WindowsKeepWords(t, 0, size, overlap, a, b);
      StrippedWindowIsChunk(t, size, overlap, w);
      assert !IsSpace(t[a]) && !IsSpace(t[b - 1]);
      v := Strip(t, w);
    }
  }

  predicate StandsAt(s: string, w: string, i: nat) {
    i + |w| <= |s| && s[i..i + |w|] == w
  }

  lemma SpanHoldsWord(t: string, spans: seq<Span>, v: Span, a: nat, w: string) returns (k: nat)
    requires InText(t, spans) && v in spans
    requires v.lo <= a && a + |w| <= v.hi && t[a..a + |w|] == w
    ensures k < |spans| && StandsAt(SliceAll(t, spans)[k], w, a - v.lo)
  {
    hide SliceAll;
    k :| 0 <= k < |spans| && spans[k] == v;
    assert Slice(t, v)[a - v.lo..a - v.lo + |w|] == t[a..a + |w|];
  }

  /** Every word of the input shorter than the chunk size appears whole inside some chunk. */
  lemma {:induction false} EveryShortWordInSomeChunk(text: string, size: nat, overlap: nat, w: string)
    returns (k: nat, i: nat)
    requires size >= 1 && w in Words(text) && |w| < size
    ensures var t := Normalise(text);
            && k < |ChunkSpans(t, size, overlap)|
            && StandsAt(SliceAll(t, ChunkSpans(t, size, overlap))[k], w, i)
  {
    hide Words, ChunkSpans, Join, Slice, SliceAll;
    var ws, t := Words(text), Normalise(text);
    JoinNormal(ws);
    var n :| 0 <= n < |ws| && ws[n] == w;
    var a := WordsStandInJoin(ws, n);
    var v := ShortWordInSomeSpan(t, size, overlap, a, a + |w|);
    i := a - v.lo;
    k := SpanHoldsWord(t, ChunkSpans(t, size, overlap), v, a, w);
  }

  /** The bound is tight: a word of exactly the chunk size can be torn apart. */
  lemma FullSizeWordCanBeTorn()
    ensures var t := ['a', ' ', 'b', 'c', 'd'];
            && WordAt(t, 2, 5)
            && ChunkSpans(t, 3, 0) == [Span(0, 1), Span(2, 4), Span(4, 5)]
  {
    hide Windows, Strip;
    var t := ['a', ' ', 'b', 'c', 'd'];
    TornWindows(t);
    var ws := [Span(0, 1), Span(1, 4), Span(4, 5)];
    assert ws[..2] == [Span(0, 1), Span(1, 4)] && ws[..2][..1] == [Span(0, 1)];
    assert Trimmed(t, ws[..2][..1]) == [Span(0, 1)];
    assert Trimmed(t, ws[..2]) == [Span(0, 1), Span(2, 4)];
  }

  lemma TornWindows(t: string)
    requires t == ['a', ' ', 'b', 'c', 'd']
    ensures Windows(t, 0, 3, 0) == [Span(0, 1), Span(1, 4), Span(4, 5)]
    ensures Strip(t, Span(0, 1)) == Span(0, 1)
    ensures Strip(t, Span(1, 4)) == Span(2, 4)
    ensures Strip(t, Span(4, 5)) == Span(4, 5)
  {
    assert LastSpace(t, 0, 3) == 1;
    assert LastSpace(t, 1, 4) == 1;
    assert Windows(t, 4, 3, 0) == [Span(4, 5)];
    assert Windows(t, 1, 3, 0) == [Span(1, 4), Span(4, 5)];
  }
}
