/** Laws that determine splitting, joining, the order of strings and numerals. */
module TextLaws {
  import opened Text

  /** `split`: blanks separate, maximal runs without blanks are kept. */
  lemma SplitLaws(c: char, s: string, w: string, rest: string)
    ensures Words("") == []
    ensures IsSpace(c) ==> Words([c] + s) == Words(s)
    ensures IsWord(w) && (rest == "" || IsSpace(rest[0])) ==> Words(w + rest) == [w] + Words(rest)
  {
    assert ([c] + s)[0] == c && ([c] + s)[1..] == s;
    if IsWord(w) && (rest == "" || IsSpace(rest[0])) {
      WordLengthOfPrefix(w, rest);
      assert (w + rest)[0] == w[0] && (w + rest)[..|w|] == w && (w + rest)[|w|..] == rest;
    }
  }

  /** `" ".join`. */
  lemma JoinLaws(w: string, ws: seq<string>)
    ensures Join([]) == "" && Join([w]) == w
    ensures ws != [] ==> Join([w] + ws) == w + " " + Join(ws)
  {
    assert ([w] + ws)[1..] == ws;
  }

  predicate LessAt(a: string, b: string, i: nat) {
    i < |a| && i < |b| && a[..i] == b[..i] && a[i] < b[i]
  }

  lemma DifferenceIsFirst(a: string, b: string, i: nat)
    requires LessAt(a, b, i)
    ensures a[0] <= b[0]
  {
    if i > 0 {
      assert a[0] == a[..i][0] && b[0] == b[..i][0];
    }
  }

  /** The order of strings: a prefix comes first, otherwise the first difference decides. */
  lemma {:induction false} LexLeqIff(a: string, b: string)
    ensures LexLeq(a, b) <==> a <= b || exists i: nat :: LessAt(a, b, i)
  {
    if a != "" && b != "" {
      var x, y := a[1..], b[1..];
      LexLeqIff(x, y);
      assert a == [a[0]] + x && b == [b[0]] + y;
      if a[0] < b[0] {
        assert LessAt(a, b, 0);
      } else if a[0] == b[0] {
        if i: nat :| LessAt(x, y, i) {
          assert a[..i + 1] == [a[0]] + x[..i] && b[..i + 1] == [b[0]] + y[..i];
          assert LessAt(a, b, i + 1);
        }
        if i: nat :| LessAt(a, b, i) {
          assert i > 0;
          assert x[..i - 1] == a[..i][1..] && y[..i - 1] == b[..i][1..];
          assert LessAt(x, y, i - 1);
        }
      } else if i: nat :| LessAt(a, b, i) {
        DifferenceIsFirst(a, b, i);
      }
    }
  }

  /** Numerals have no leading zero. */
  lemma {:induction false} DecimalShape(n: nat)
    ensures n < 10 <==> |Decimal(n)| == 1
    ensures Decimal(n)[0] == '0' <==> n == 0
  {
    if n >= 10 {
      DecimalShape(n / 10);
    }
  }

  /** Padding puts zeros in front, as many as are missing. */
  lemma {:induction false} PadShape(s: string, width: nat)
    ensures var p := ZeroPad(s, width);
            && |p| == (if |s| < width then width else |s|)
            && p[|p| - |s|..] == s
            && forall i :: 0 <= i < |p| - |s| ==> p[i] == '0'
    decreases width - |s|
  {
    if |s| < width {
      PadShape("0" + s, width);
      var p := ZeroPad(s, width);
      var z := p[|p| - |s| - 1..];
      assert z == "0" + s && z[1..] == s;
      assert p[|p| - |s| - 1] == z[0];
    }
  }
}
