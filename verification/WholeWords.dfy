/** Exactly which words the splitter keeps whole. */
module WholeWords {
  import opened Text
  import opened Chunking

  /** Some range of the list holds `[a, b)` whole. */
  predicate Held(ws: seq<Span>, a: nat, b: nat) {
    exists k :: 0 <= k < |ws| && ws[k].lo <= a && b <= ws[k].hi
  }

  /** The word is short, or of exactly the window size and every window start is tried for it. */
  predicate Fits(size: nat, overlap: nat, a: nat, b: nat) {
    b - a < size || (b - a == size && (a == 0 || overlap >= size - 1))
  }

  lemma {:induction false} WindowsStartLater(t: string, start: nat, size: nat, overlap: nat, k: nat)
    requires size >= 1 && k < |Windows(t, start, size, overlap)|
    ensures Windows(t, start, size, overlap)[k].lo >= start
    decreases |t| - start
  {
    var end := WindowEnd(t, start, size);
    if k > 0 {
      WindowsStartLater(t, NextStart(start, end, overlap), size, overlap, k - 1);
    }
  }

  /** A window cannot step over the blank in front of a word of the window size: its end is at
      that blank or before. */
  lemma WindowStopsAtBlank(t: string, start: nat, size: nat, a: nat, b: nat)
    requires size >= 1 && WordAt(t, a, b) && b - a == size && start + 1 < a
    ensures WindowEnd(t, start, size) < a
  {
  }

  /** From the blank itself the window covers all but the last letter. */
  lemma WindowFromBlank(t: string, size: nat, a: nat, b: nat)
    requires size >= 1 && WordAt(t, a, b) && b - a == size && a > 0
    ensures WindowEnd(t, a - 1, size) == b - 1
  {
  }

  /** Without the largest overlap no window starts at such a word. */
  lemma {:induction false} NoWindowStartsAtWord(t: string, start: nat, size: nat, overlap: nat, a: nat, b: nat, k: nat)
    requires size >= 1 && WordAt(t, a, b) && b - a == size && start < a && overlap < size - 1
    requires k < |Windows(t, start, size, overlap)|
    ensures Windows(t, start, size, overlap)[k].lo != a
    decreases |t| - start
  {
    var end := WindowEnd(t, start, size);
    if k > 0 {
      var next := NextStart(start, end, overlap);
      if start + 1 < a {
        WindowStopsAtBlank(t, start, size, a, b);
        NoWindowStartsAtWord(t, next, size, overlap, a, b, k - 1);
      } else {
        WindowFromBlank(t, size, a, b);
        WindowsStartLater(t, next, size, overlap, k - 1);
      }
    }
  }

  /** With the largest overlap windows advance letter by letter, so one starts at the word. */
  lemma {:induction false} SomeWindowStartsAtWord(t: string, start: nat, size: nat, overlap: nat, a: nat, b: nat)
    returns (k: nat)
    requires size >= 1 && WordAt(t, a, b) && b - a == size && start <= a
    requires start == a || overlap >= size - 1
    ensures k < |Windows(t, start, size, overlap)|
    ensures Windows(t, start, size, overlap)[k].lo <= a && b <= Windows(t, start, size, overlap)[k].hi
    decreases |t| - start
  {
    if start == a {
      k := 0;
    } else {
      var end := WindowEnd(t, start, size);
      var later := SomeWindowStartsAtWord(t, NextStart(start, end, overlap), size, overlap, a, b);
      k := later + 1;
    }
  }

  /** A window holds the word whole exactly if it is short, or just fits and either stands at the
      very beginning or the overlap is the largest sensible one. */
  lemma WindowHoldsWordIff(t: string, size: nat, overlap: nat, a: nat, b: nat)
    requires size >= 1 && WordAt(t, a, b)
    ensures Held(Windows(t, 0, size, overlap), a, b) <==> Fits(size, overlap, a, b) || |t| <= size
  {
    var ws := Windows(t, 0, size, overlap);
    if |t| <= size {
      assert ws[0] == Span(0, |t|);
    } else if b - a < size {
      var w := WindowsKeepWords(t, 0, size, overlap, a, b);
    } else if Fits(size, overlap, a, b) {
      var k := SomeWindowStartsAtWord(t, 0, size, overlap, a, b);
    } else {
      WindowSizes(t, 0, size, overlap);
      forall k | 0 <= k < |ws| ensures !(ws[k].lo <= a && b <= ws[k].hi) {
        if b - a == size {
          NoWindowStartsAtWord(t, 0, size, overlap, a, b, k);
        }
      }
    }
  }

  /** Trimming blanks neither tears a word nor mends one. */
  lemma TrimmedHoldsWordIff(t: string, ws: seq<Span>, a: nat, b: nat)
    requires InText(t, ws) && a < b <= |t| && !IsSpace(t[a]) && !IsSpace(t[b - 1])
    ensures Held(Trimmed(t, ws), a, b) <==> Held(ws, a, b)
  {
    if Held(ws, a, b) {
      var k :| 0 <= k < |ws| && ws[k].lo <= a && b <= ws[k].hi;
      var v := Strip(t, ws[k]);
      TrimmedKeeps(t, ws, k);
      var j :| 0 <= j < |Trimmed(t, ws)| && Trimmed(t, ws)[j] == v;
    }
    if Held(Trimmed(t, ws), a, b) {
      var j :| 0 <= j < |Trimmed(t, ws)| && Trimmed(t, ws)[j].lo <= a && b <= Trimmed(t, ws)[j].hi;
      var k := TrimmedComesFrom(t, ws, Trimmed(t, ws)[j]);
    }
  }

  /** For every text, size and overlap: a word is whole in some chunk exactly if the text is one
      chunk, or the word is shorter than a chunk, or it just fits and stands at the very
      beginning or the overlap is the largest sensible one. */
  lemma ChunkHoldsWordIff(t: string, size: nat, overlap: nat, a: nat, b: nat)
    requires size >= 1 && Normal(t) && WordAt(t, a, b)
    ensures Held(ChunkSpans(t, size, overlap), a, b) <==> Fits(size, overlap, a, b) || |t| <= size
  {
    hide Windows, Trimmed, Fits;
    WindowsInText(t, 0, size, overlap);
    if |t| <= size {
      assert ChunkSpans(t, size, overlap)[0] == Span(0, |t|);
    } else {
      WindowHoldsWordIff(t, size, overlap, a, b);
      TrimmedHoldsWordIff(t, Windows(t, 0, size, overlap), a, b);
    }
  }

  /** A word of the chunk size in the middle of a text is in no chunk. */
  lemma FullSizeWordTorn()
    ensures !Held(ChunkSpans(['a', ' ', 'b', 'c', 'd'], 3, 0), 2, 5)
  {
    hide ChunkSpans;
    FullSizeWordCanBeTorn();
  }
}
