/** Strings as the platform's Python code sees them: whitespace, `str.split`, `" ".join`
    and the code-point order used by `<` and `sorted`. */
module Text {

  /** The characters `str.split()` and `str.strip()` treat as whitespace. */
  predicate IsSpace(c: char) {
    || '\t' <= c <= '\r'
    || '\U{1C}' <= c <= ' '
    || c == '\U{85}' || c == '\U{A0}' || c == '\U{1680}'
    || '\U{2000}' <= c <= '\U{200A}'
    || c == '\U{2028}' || c == '\U{2029}' || c == '\U{202F}' || c == '\U{205F}' || c == '\U{3000}'
  }

  predicate SpaceFree(s: string) {
    forall i :: 0 <= i < |s| ==> !IsSpace(s[i])
  }

  /** A word: what `str.split()` yields. */
  predicate IsWord(s: string) {
    s != "" && SpaceFree(s)
  }

  predicate AllWords(ws: seq<string>) {
    forall i :: 0 <= i < |ws| ==> IsWord(ws[i])
  }

  /** Length of the longest prefix without whitespace. */
  function WordLength(s: string): (n: nat)
    ensures n <= |s|
    ensures SpaceFree(s[..n])
    ensures n < |s| ==> IsSpace(s[n])
  {
    if s == "" || IsSpace(s[0]) then 0
    else
      var n := 1 + WordLength(s[1..]);
      assert forall i :: 1 <= i < n ==> s[i] == s[1..][..n - 1][i - 1];
      n
  }

  /** `s.split()`. */
  function Words(s: string): (ws: seq<string>)
    ensures AllWords(ws)
    decreases |s|
  {
    if s == "" then []
    else if IsSpace(s[0]) then Words(s[1..])
    else [s[..WordLength(s)]] + Words(s[WordLength(s)..])
  }

  /** `" ".join(ws)`. */
  function Join(ws: seq<string>): string {
    if |ws| == 0 then ""
    else if |ws| == 1 then ws[0]
    else ws[0] + " " + Join(ws[1..])
  }

  /** `" ".join(s.split())`. */
  function Normalise(s: string): string {
    Join(Words(s))
  }

  lemma {:induction false} WordLengthOfPrefix(w: string, rest: string)
    requires SpaceFree(w)
    requires rest == "" || IsSpace(rest[0])
    ensures WordLength(w + rest) == |w|
  {
    var s, n := w + rest, WordLength(w + rest);
    assert |w| < |s| ==> s[|w|] == rest[0];
  }

  /** Splitting undoes joining on words. */
  lemma {:induction false} WordsOfJoin(ws: seq<string>)
    requires AllWords(ws)
    ensures Words(Join(ws)) == ws
  {
    if |ws| == 1 {
      WordLengthOfPrefix(ws[0], "");
      assert ws[0] + "" == ws[0];
    } else if |ws| > 1 {
      var rest := " " + Join(ws[1..]);
      var s := ws[0] + rest;
      assert Join(ws) == s;
      WordLengthOfPrefix(ws[0], rest);
      assert s[0] == ws[0][0] && s[..|ws[0]|] == ws[0] && s[|ws[0]|..] == rest;
      assert rest[0] == ' ' && rest[1..] == Join(ws[1..]);
      WordsOfJoin(ws[1..]);
    }
  }

  /** Joining is injective on words. */
  lemma JoinInjective(a: seq<string>, b: seq<string>)
    requires AllWords(a) && AllWords(b)
    requires Join(a) == Join(b)
    ensures a == b
  {
    WordsOfJoin(a);
    WordsOfJoin(b);
  }

  // ------------------------------------------------------------ code-point order

  /** `a <= b` on Python strings. */
  predicate LexLeq(a: string, b: string) {
    a == "" || (b != "" && (a[0] < b[0] || (a[0] == b[0] && LexLeq(a[1..], b[1..]))))
  }

  lemma LexTotal(a: string, b: string)
    ensures LexLeq(a, b) || LexLeq(b, a)
  {
  }

  lemma LexAntisymmetric(a: string, b: string)
    requires LexLeq(a, b) && LexLeq(b, a)
    ensures a == b
  {
    if a != "" && b != "" {
      LexAntisymmetric(a[1..], b[1..]);
      assert a == [a[0]] + a[1..] && b == [b[0]] + b[1..];
    }
  }

  lemma LexTransitive(a: string, b: string, c: string)
    requires LexLeq(a, b) && LexLeq(b, c)
    ensures LexLeq(a, c)
  {
  }

  predicate LexSorted(ws: seq<string>) {
    forall i, j :: 0 <= i < j < |ws| ==> LexLeq(ws[i], ws[j])
  }

  function LexInsert(w: string, ws: seq<string>): (r: seq<string>)
    ensures multiset(r) == multiset(ws) + multiset{w}
  {
    if ws == [] || LexLeq(w, ws[0]) then
      assert [w] + ws == [w] + ws;
      [w] + ws
    else
      assert ws == [ws[0]] + ws[1..];
      [ws[0]] + LexInsert(w, ws[1..])
  }

  /** `sorted(ws)`. */
  function LexSort(ws: seq<string>): (r: seq<string>)
    ensures multiset(r) == multiset(ws)
  {
    if ws == [] then []
    else
      assert ws == [ws[0]] + ws[1..];
      LexInsert(ws[0], LexSort(ws[1..]))
  }

  lemma {:induction false} LexInsertSorted(w: string, ws: seq<string>)
    requires LexSorted(ws)
    ensures LexSorted(LexInsert(w, ws))
  {
    var r := LexInsert(w, ws);
    if ws == [] {
    } else if LexLeq(w, ws[0]) {
      forall j | 0 <= j < |ws| ensures LexLeq(w, ws[j]) {
        if j > 0 { LexTransitive(w, ws[0], ws[j]); }
      }
    } else {
      LexTotal(w, ws[0]);
      LexInsertSorted(w, ws[1..]);
      var t := LexInsert(w, ws[1..]);
      forall j | 0 <= j < |t| ensures LexLeq(ws[0], t[j]) {
        assert t[j] in multiset(t);
        assert t[j] in multiset(ws[1..]) || t[j] == w;
        assert t[j] in ws[1..] || t[j] == w;
      }
    }
  }

  lemma {:induction false} LexSortSorted(ws: seq<string>)
    ensures LexSorted(LexSort(ws))
  {
    if ws != [] {
      LexSortSorted(ws[1..]);
      LexInsertSorted(ws[0], LexSort(ws[1..]));
    }
  }

  lemma Uncons(ws: seq<string>)
    requires ws != []
    ensures ws[0] in multiset(ws)
    ensures multiset(ws[1..]) == multiset(ws) - multiset{ws[0]}
    ensures LexSorted(ws) ==> LexSorted(ws[1..])
  {
    assert ws == [ws[0]] + ws[1..];
  }

  /** Two sorted lists with the same elements are the same list. */
  lemma {:induction false} SortedUnique(a: seq<string>, b: seq<string>)
    requires LexSorted(a) && LexSorted(b)
    requires multiset(a) == multiset(b)
    ensures a == b
  {
    hide LexLeq;
    assert |multiset(a)| == |a| && |multiset(b)| == |b|;
    if a != [] {
      SameHead(a, b);
      SameTail(a, b);
      SortedUnique(a[1..], b[1..]);
    }
  }

  lemma SameHead(a: seq<string>, b: seq<string>)
    requires LexSorted(a) && LexSorted(b) && a != [] && b != []
    requires multiset(a) == multiset(b)
    ensures a[0] == b[0]
  {
    hide LexLeq, LexSorted;
    assert b[0] in multiset(b) && a[0] in multiset(a);
    HeadIsLeast(a, b[0]);
    HeadIsLeast(b, a[0]);
    LexAntisymmetric(a[0], b[0]);
  }

  lemma SameTail(a: seq<string>, b: seq<string>)
    requires a != [] && b != [] && a[0] == b[0] && multiset(a) == multiset(b)
    ensures multiset(a[1..]) == multiset(b[1..])
    ensures a[1..] == b[1..] ==> a == b
  {
    Uncons(a);
    Uncons(b);
    assert a == [a[0]] + a[1..] && b == [b[0]] + b[1..];
  }

  lemma HeadIsLeast(ws: seq<string>, w: string)
    requires LexSorted(ws) && w in multiset(ws)
    ensures LexLeq(ws[0], w)
  {
    LexReflexive(w);
    assert w in ws;
  }

  lemma LexReflexive(a: string)
    ensures LexLeq(a, a)
  {
  }

  /** `sorted` is a canonical form: equal exactly on equal multisets. */
  lemma {:induction false} LexSortCanonical(a: seq<string>, b: seq<string>)
    ensures LexSort(a) == LexSort(b) <==> multiset(a) == multiset(b)
  {
    LexSortSorted(a);
    LexSortSorted(b);
    if multiset(a) == multiset(b) {
      SortedUnique(LexSort(a), LexSort(b));
    }
  }

  // ------------------------------------------------------------ decimal numerals

  function DigitChar(d: nat): char
    requires d < 10
  {
    "0123456789"[d]
  }

  predicate IsDigit(c: char) {
    '0' <= c <= '9'
  }

  function DigitValue(c: char): nat
    requires IsDigit(c)
  {
    (c as int) - ('0' as int)
  }

  /** `str(n)` for a non-negative integer. */
  function Decimal(n: nat): (s: string)
    ensures s != ""
  {
    if n < 10 then [DigitChar(n)] else Decimal(n / 10) + [DigitChar(n % 10)]
  }

  predicate AllDigits(s: string) {
    forall i :: 0 <= i < |s| ==> IsDigit(s[i])
  }

  /** The value of a digit string, most significant digit first. */
  function DecimalValue(s: string): nat
    requires AllDigits(s)
  {
    if s == "" then 0 else 10 * DecimalValue(s[..|s| - 1]) + DigitValue(s[|s| - 1])
  }

  lemma {:induction false} DecimalRoundTrip(n: nat)
    ensures AllDigits(Decimal(n)) && DecimalValue(Decimal(n)) == n
  {
    var s := Decimal(n);
    if n < 10 {
      assert s[..|s| - 1] == "";
    } else {
      DecimalRoundTrip(n / 10);
      assert s[..|s| - 1] == Decimal(n / 10);
    }
  }

  /** Left-pads with zeros to a minimum width, as in `f"{n:06d}"`. */
  function ZeroPad(s: string, width: nat): string
    decreases width - |s|
  {
    if |s| >= width then s else ZeroPad("0" + s, width)
  }

  lemma {:induction false} LeadingZero(s: string)
    requires AllDigits(s)
    ensures AllDigits("0" + s) && DecimalValue("0" + s) == DecimalValue(s)
  {
    var z := "0" + s;
    if s == "" {
      assert z[..|z| - 1] == "";
    } else {
      assert z[..|z| - 1] == "0" + s[..|s| - 1];
      LeadingZero(s[..|s| - 1]);
    }
  }

  lemma {:induction false} ZeroPadValue(s: string, width: nat)
    requires AllDigits(s)
    ensures AllDigits(ZeroPad(s, width)) && DecimalValue(ZeroPad(s, width)) == DecimalValue(s)
    decreases width - |s|
  {
    if |s| < width {
      LeadingZero(s);
      ZeroPadValue("0" + s, width);
    }
  }

  // ------------------------------------------------------------ rsplit("-", 1)[-1]

  /** The part after the last dash; the whole string when there is none. */
  function AfterLastDash(s: string): string {
    if s == "" then ""
    else if s[|s| - 1] == '-' then ""
    else AfterLastDash(s[..|s| - 1]) + [s[|s| - 1]]
  }

  lemma {:induction false} AfterLastDashOf(prefix: string, tail: string)
    requires '-' !in tail
    ensures AfterLastDash(prefix + "-" + tail) == tail
  {
    var s := prefix + "-" + tail;
    if tail != "" {
      var init := tail[..|tail| - 1];
      assert s[..|s| - 1] == prefix + "-" + init;
      assert s[|s| - 1] == tail[|tail| - 1] && tail[|tail| - 1] in tail;
      AfterLastDashOf(prefix, init);
      assert tail == init + [tail[|tail| - 1]];
    }
  }

  lemma {:induction false} AfterLastDashOfPlain(s: string)
    requires '-' !in s
    ensures AfterLastDash(s) == s
  {
    if s != "" {
      AfterLastDashOfPlain(s[..|s| - 1]);
    }
  }

  lemma {:induction false} AfterLastDashHasNoDash(s: string)
    ensures '-' !in AfterLastDash(s)
  {
    if s != "" && s[|s| - 1] != '-' {
      AfterLastDashHasNoDash(s[..|s| - 1]);
    }
  }
}
