/**
 * `getElementsFromParamList`: splits a comma-separated list on the commas met at angle-bracket depth 0.
 * As written, every comma (nested or not) moves the start of the next segment, so a segment ends at a
 * top-level comma but starts just after the comma before it, whatever its depth.
 */
module ParamSplit {
  import opened Text

  function Delta(c: char): int {
    if c == '<' then 1 else if c == '>' then -1 else 0
  }

  /** The bracket depth after reading s[..n]: opening minus closing angle brackets. */
  function Depth(s: string, n: nat): int
    requires n <= |s|
  {
    if n == 0 then 0 else Depth(s, n - 1) + Delta(s[n - 1])
  }

  /** The index just after the last comma of s[..n], or 0 when s[..n] has no comma. */
  function AfterLastComma(s: string, n: nat): (r: nat)
    requires n <= |s|
    ensures r <= n
    ensures r > 0 ==> s[r - 1] == ','
  {
    if n == 0 then 0
    else if s[n - 1] == ',' then n
    else AfterLastComma(s, n - 1)
  }

  predicate IsTopLevelComma(s: string, i: nat)
    requires i < |s|
  {
    s[i] == ',' && Depth(s, i) == 0
  }

  /** The element that ends at the comma at position c: from just after the comma before it, trimmed. */
  function SegmentBefore(s: string, c: nat): string
    requires c <= |s|
  {
    Trim(s[AfterLastComma(s, c)..c])
  }

  /** The elements closed by the top-level commas of s[..n], in order. */
  function ClosedSegments(s: string, n: nat): seq<string>
    requires n <= |s|
  {
    if n == 0 then []
    else ClosedSegments(s, n - 1) + if IsTopLevelComma(s, n - 1) then [SegmentBefore(s, n - 1)] else []
  }

  /**
   * The elements of a list: one per top-level comma, ending there, and the trimmed text after the last
   * comma, which is always present.
   */
  function Elements(s: string): seq<string> {
    ClosedSegments(s, |s|) + [Trim(s[AfterLastComma(s, |s|)..])]
  }

  method ElementsFromParamList(s: string) returns (r: seq<string>)
    ensures r == Elements(s)
  {
    var openBrackets := 0;
    var segmentStart := 0;
    r := [];
    for i := 0 to |s|
      invariant openBrackets == Depth(s, i)
      invariant segmentStart == AfterLastComma(s, i)
      invariant r == ClosedSegments(s, i)
    {
      ScanStep(s, i);
      if s[i] == '<' {
        openBrackets := openBrackets + 1;
      } else if s[i] == '>' {
        openBrackets := openBrackets - 1;
      } else if s[i] == ',' {
        if openBrackets == 0 {
          r := r + [Trim(s[segmentStart..i])];
        }
        segmentStart := i + 1;
      }
    }
    r := r + [Trim(s[segmentStart..])];
  }

  /** Reading one more character: its bracket, the comma it may be, the element it may close. */
  lemma ScanStep(s: string, i: nat)
    requires i < |s|
    ensures Depth(s, i + 1) == Depth(s, i) + Delta(s[i])
    ensures AfterLastComma(s, i + 1) == if s[i] == ',' then i + 1 else AfterLastComma(s, i)
    ensures ClosedSegments(s, i + 1)
            == if IsTopLevelComma(s, i) then ClosedSegments(s, i) + [SegmentBefore(s, i)] else ClosedSegments(s, i)
  {
    if !IsTopLevelComma(s, i) {
      assert ClosedSegments(s, i + 1) == ClosedSegments(s, i) + [];
    }
  }

  /** Each closed element is a trimmed infix of the list, closed by a top-level comma before n. */
  lemma {:induction false} ClosedSegmentsAreTrimmed(s: string, n: nat)
    requires n <= |s|
    ensures forall e :: e in ClosedSegments(s, n) ==>
      IsTrimmed(e) && |e| <= |s| && exists c: nat :: c < n && IsTopLevelComma(s, c) && e == SegmentBefore(s, c)
  {
    if n > 0 {
      ClosedSegmentsAreTrimmed(s, n - 1);
      if IsTopLevelComma(s, n - 1) {
        var last := SegmentBefore(s, n - 1);
        TrimIsTrimmedInfix(s[AfterLastComma(s, n - 1)..n - 1]);
        assert ClosedSegments(s, n) == ClosedSegments(s, n - 1) + [last];
        assert IsTrimmed(last) && |last| <= |s| && n - 1 < n && IsTopLevelComma(s, n - 1);
      } else {
        assert ClosedSegments(s, n) == ClosedSegments(s, n - 1) + [];
      }
    }
  }

  /** Every element is a trimmed infix of the list, so no element is longer than the list. */
  lemma ElementsAreTrimmedInfixes(s: string)
    ensures forall k :: 0 <= k < |Elements(s)| ==> IsTrimmed(Elements(s)[k]) && |Elements(s)[k]| <= |s|
  {
    ClosedSegmentsAreTrimmed(s, |s|);
    TrimIsTrimmedInfix(s[AfterLastComma(s, |s|)..]);
  }

  /** Every top-level comma closes an element: the segment before it is among the closed elements. */
  lemma {:induction false} EveryTopLevelCommaClosesAnElement(s: string, n: nat)
    requires n <= |s|
    ensures forall c: nat :: c < n && IsTopLevelComma(s, c) ==> SegmentBefore(s, c) in ClosedSegments(s, n)
  {
    if n > 0 {
      EveryTopLevelCommaClosesAnElement(s, n - 1);
    }
  }

  function TopLevelCommaSet(s: string): set<nat> {
    set i: nat | i < |s| && IsTopLevelComma(s, i)
  }

  lemma {:induction false} ClosedSegmentCount(s: string, n: nat)
    requires n <= |s|
    ensures |ClosedSegments(s, n)| == |set i: nat | i < n && IsTopLevelComma(s, i)|
  {
    var now := set i: nat | i < n && IsTopLevelComma(s, i);
    if n > 0 {
      ClosedSegmentCount(s, n - 1);
      var before := set i: nat | i < n - 1 && IsTopLevelComma(s, i);
      if IsTopLevelComma(s, n - 1) {
        assert now == before + {n - 1} && n - 1 !in before;
        assert |ClosedSegments(s, n)| == |ClosedSegments(s, n - 1)| + 1;
      } else {
        assert now == before;
        assert ClosedSegments(s, n) == ClosedSegments(s, n - 1) + [];
      }
    } else {
      assert now == {};
    }
  }

  /** The list has exactly one more element than it has commas at bracket depth 0. */
  lemma ElementsCount(s: string)
    ensures |Elements(s)| == |TopLevelCommaSet(s)| + 1
  {
    ClosedSegmentCount(s, |s|);
  }

  /** No comma in s[m..n]; stated by recursion on n, the way the runs below are read. */
  predicate CommaFreeRange(s: string, m: nat, n: nat)
    requires m <= n <= |s|
  {
    m == n || (s[n - 1] != ',' && CommaFreeRange(s, m, n - 1))
  }

  /** A character that the splitter reacts to. */
  predicate Special(c: char) {
    c == ',' || c == '<' || c == '>'
  }

  /** No special character in s[m..n]. */
  predicate PlainRange(s: string, m: nat, n: nat)
    requires m <= n <= |s|
  {
    m == n || (!Special(s[n - 1]) && PlainRange(s, m, n - 1))
  }

  lemma {:induction false} PlainRangeByIndex(s: string, m: nat, n: nat)
    requires m <= n <= |s| && forall i :: m <= i < n ==> !Special(s[i])
    ensures PlainRange(s, m, n)
    decreases n - m
  {
    if m < n {
      PlainRangeByIndex(s, m, n - 1);
    }
  }

  lemma {:induction false} CommaFreeRangeByIndex(s: string, m: nat, n: nat)
    requires m <= n <= |s| && forall i :: m <= i < n ==> s[i] != ','
    ensures CommaFreeRange(s, m, n)
    decreases n - m
  {
    if m < n {
      CommaFreeRangeByIndex(s, m, n - 1);
    }
  }

  /** Text the splitter passes over without effect: no comma and no angle bracket. */
  predicate Plain(s: string) {
    forall i :: 0 <= i < |s| ==> !Special(s[i])
  }

  /** Reading characters other than a comma leaves the element boundaries where they were. */
  lemma {:induction false} CommaFreeRun(s: string, m: nat, n: nat)
    requires m <= n <= |s| && CommaFreeRange(s, m, n)
    ensures AfterLastComma(s, n) == AfterLastComma(s, m)
    ensures ClosedSegments(s, n) == ClosedSegments(s, m)
    decreases n - m
  {
    if m < n {
      CommaFreeRun(s, m, n - 1);
      assert ClosedSegments(s, n) == ClosedSegments(s, n - 1) + [];
    }
  }

  /** Without any comma, the list is its own single, trimmed element. */
  lemma ElementsWithoutComma(s: string)
    requires ',' !in s
    ensures Elements(s) == [Trim(s)]
  {
    CommaFreeRangeByIndex(s, 0, |s|);
    CommaFreeRun(s, 0, |s|);
    assert s[0..] == s;
  }

  lemma EmptyListHasOneEmptyElement()
    ensures Elements("") == [""]
  {
  }

  /**
   * Plain text, a comma, then text without commas: the list splits in two, whatever brackets the rest
   * holds.
   */
  lemma SplitsInTwo(a: string, b: string)
    requires Plain(a) && ',' !in b
    ensures Elements(a + "," + b) == [Trim(a), Trim(b)]
  {
    var s := a + "," + b;
    var n := |a|;
    assert PlainRange(s, 0, n) by {
      forall i | 0 <= i < n ensures !Special(s[i]) {
        assert s[i] == a[i];
      }
      PlainRangeByIndex(s, 0, n);
    }
    assert CommaFreeRange(s, n + 1, |s|) by {
      forall i | n + 1 <= i < |s| ensures s[i] != ',' {
        assert s[i] == b[i - n - 1];
      }
      CommaFreeRangeByIndex(s, n + 1, |s|);
    }
    SplitAt(s, n);
    assert s[..n] == a;
    assert s[n + 1..] == b;
  }

  lemma SplitAt(s: string, n: nat)
    requires n < |s| && s[n] == ',' && PlainRange(s, 0, n) && CommaFreeRange(s, n + 1, |s|)
    ensures Elements(s) == [Trim(s[..n]), Trim(s[n + 1..])]
  {
    assert ClosedSegments(s, n + 1) == [Trim(s[..n])] && AfterLastComma(s, n + 1) == n + 1 by {
      FirstSegment(s, n);
    }
    CommaFreeRun(s, n + 1, |s|);
  }

  /** Plain text up to a first comma at n: one element, and the next one starts after the comma. */
  lemma FirstSegment(s: string, n: nat)
    requires n < |s| && s[n] == ',' && PlainRange(s, 0, n)
    ensures ClosedSegments(s, n + 1) == [Trim(s[..n])]
    ensures AfterLastComma(s, n + 1) == n + 1 && Depth(s, n + 1) == 0
  {
    PlainDepth(s, 0, n);
    PlainIsCommaFree(s, 0, n);
    CommaFreeRun(s, 0, n);
    assert SegmentBefore(s, n) == Trim(s[..n]) by {
      assert s[0..n] == s[..n];
    }
    assert ClosedSegments(s, n + 1) == [] + [SegmentBefore(s, n)];
  }

  /**
   * A nested comma ends no element but still moves the start of the next one: with a top-level comma
   * at c1, a `<` at lt and a nested comma at c2, the second element is only what follows c2.
   */
  lemma NestedCommaAt(s: string, c1: nat, lt: nat, c2: nat)
    requires c1 < lt < c2 < |s| - 1
    requires s[c1] == ',' && s[lt] == '<' && s[c2] == ',' && s[|s| - 1] == '>'
    requires PlainRange(s, 0, c1) && PlainRange(s, c1 + 1, lt) && PlainRange(s, lt + 1, c2)
    requires PlainRange(s, c2 + 1, |s| - 1)
    ensures Elements(s) == [Trim(s[..c1]), Trim(s[c2 + 1..])]
  {
    NestedCommaBoundaries(s, c1, lt, c2);
    FirstSegment(s, c1);
    assert Elements(s) == [Trim(s[..c1])] + [Trim(s[c2 + 1..])];
  }

  lemma NestedCommaBoundaries(s: string, c1: nat, lt: nat, c2: nat)
    requires c1 < lt < c2 < |s| - 1
    requires s[c1] == ',' && s[lt] == '<' && s[c2] == ',' && s[|s| - 1] == '>'
    requires PlainRange(s, 0, c1) && PlainRange(s, c1 + 1, lt) && PlainRange(s, lt + 1, c2)
    requires PlainRange(s, c2 + 1, |s| - 1)
    ensures ClosedSegments(s, |s|) == ClosedSegments(s, c1 + 1) && AfterLastComma(s, |s|) == c2 + 1
  {
    NestedCommaShape(s, c1, lt, c2);
    CommaFreeRun(s, c1 + 1, c2);
    assert ClosedSegments(s, c2 + 1) == ClosedSegments(s, c2) + [];
    CommaFreeRun(s, c2 + 1, |s|);
  }

  /** Around a nested comma: no comma before it since c1, depth 1 at it, no comma after it. */
  lemma NestedCommaShape(s: string, c1: nat, lt: nat, c2: nat)
    requires c1 < lt < c2 < |s| - 1
    requires s[c1] == ',' && s[lt] == '<' && s[c2] == ',' && s[|s| - 1] == '>'
    requires PlainRange(s, 0, c1) && PlainRange(s, c1 + 1, lt) && PlainRange(s, lt + 1, c2)
    requires PlainRange(s, c2 + 1, |s| - 1)
    ensures Depth(s, c2) == 1 && CommaFreeRange(s, c1 + 1, c2) && CommaFreeRange(s, c2 + 1, |s|)
  {
    assert Depth(s, c2) == 1 by {
      PlainDepth(s, 0, c1);
      PlainDepth(s, c1 + 1, lt);
      PlainDepth(s, lt + 1, c2);
    }
    assert CommaFreeRange(s, c1 + 1, c2) by {
      PlainIsCommaFree(s, c1 + 1, lt);
      PlainIsCommaFree(s, lt + 1, c2);
      CommaFreeJoin(s, c1 + 1, lt + 1, c2);
    }
    assert CommaFreeRange(s, c2 + 1, |s|) by {
      PlainIsCommaFree(s, c2 + 1, |s| - 1);
    }
  }

  lemma {:induction false} PlainDepth(s: string, m: nat, n: nat)
    requires m <= n <= |s| && PlainRange(s, m, n)
    ensures Depth(s, n) == Depth(s, m)
    decreases n - m
  {
    if m < n {
      PlainDepth(s, m, n - 1);
    }
  }

  lemma {:induction false} PlainIsCommaFree(s: string, m: nat, n: nat)
    requires m <= n <= |s| && PlainRange(s, m, n)
    ensures CommaFreeRange(s, m, n)
    decreases n - m
  {
    if m < n {
      PlainIsCommaFree(s, m, n - 1);
    }
  }

  /** Two comma-free ranges that meet make one. */
  lemma {:induction false} CommaFreeJoin(s: string, m: nat, k: nat, n: nat)
    requires m <= k <= n <= |s| && CommaFreeRange(s, m, k) && CommaFreeRange(s, k, n)
    ensures CommaFreeRange(s, m, n)
    decreases n - k
  {
    if k < n {
      CommaFreeJoin(s, m, k, n - 1);
    }
  }

  /** In `a,o<x,y>` the second element loses `o<x,` and keeps only `y>`. */
  lemma NestedCommaMovesSegmentStart(a: string, o: string, x: string, y: string)
    requires Plain(a) && Plain(o) && Plain(x) && Plain(y)
    ensures Elements(a + "," + o + "<" + x + "," + y + ">") == [Trim(a), Trim(y + ">")]
  {
    var s := a + "," + o + "<" + x + "," + y + ">";
    var c1 := |a|;
    var lt := c1 + 1 + |o|;
    var c2 := lt + 1 + |x|;
    NestedCommaSlices(a, o, x, y);
    NestedCommaOuterPieces(a, o, x, y);
    NestedCommaOwnerPiece(s, a, o, x, y);
    NestedCommaArgumentPiece(s, a, o, x, y);
    NestedCommaAt(s, c1, lt, c2);
    assert Elements(s) == [Trim(s[..c1]), Trim(s[c2 + 1..])];
    assert s[..c1] == a && s[c2 + 1..] == y + ">";
  }

  /** The text before the first comma and after the nested one, in `a,o<x,y>`, is plain. */
  lemma NestedCommaOuterPieces(a: string, o: string, x: string, y: string)
    requires Plain(a) && Plain(y)
    ensures var s := a + "," + o + "<" + x + "," + y + ">";
            var c2 := |a| + |o| + |x| + 2;
            c2 < |s| - 1 && PlainRange(s, 0, |a|) && PlainRange(s, c2 + 1, |s| - 1)
  {
    var s := a + "," + o + "<" + x + "," + y + ">";
    NestedCommaSlices(a, o, x, y);
    PlainPiece(s, a, 0);
    PlainPiece(s, y, |a| + |o| + |x| + 3);
  }

  /** The text between the first comma and the bracket of `a,o<x,y>` is plain. */
  lemma NestedCommaOwnerPiece(s: string, a: string, o: string, x: string, y: string)
    requires s == a + "," + o + "<" + x + "," + y + ">"
    requires Plain(o)
    ensures PlainRange(s, |a| + 1, |a| + 1 + |o|)
  {
    NestedCommaSlices(a, o, x, y);
    PlainPiece(s, o, |a| + 1);
  }

  /** The text between the bracket and the nested comma of `a,o<x,y>` is plain. */
  lemma NestedCommaArgumentPiece(s: string, a: string, o: string, x: string, y: string)
    requires s == a + "," + o + "<" + x + "," + y + ">"
    requires Plain(x)
    ensures PlainRange(s, |a| + |o| + 2, |a| + |o| + |x| + 2)
  {
    NestedCommaSlices(a, o, x, y);
    var lt := |a| + 1 + |o|;
    assert s[lt + 1..lt + 1 + |x|] == x;
    PlainPiece(s, x, lt + 1);
  }



  /** `a,o<x,y>` cut at its commas and brackets gives back its pieces. */
  lemma NestedCommaSlices(a: string, o: string, x: string, y: string)
    ensures var s := a + "," + o + "<" + x + "," + y + ">";
            var c1 := |a|;
            var lt := c1 + 1 + |o|;
            var c2 := lt + 1 + |x|;
            && c2 < |s| - 1
            && s[c1] == ',' && s[lt] == '<' && s[c2] == ',' && s[|s| - 1] == '>'
            && s[0..c1] == a && s[c1 + 1..lt] == o && s[lt + 1..c2] == x && s[c2 + 1..|s| - 1] == y
            && s[..c1] == a && s[c2 + 1..] == y + ">"
  {
    var s := a + "," + o + "<" + x + "," + y + ">";
    var c1 := |a|;
    var lt := c1 + 1 + |o|;
    var c2 := lt + 1 + |x|;
    assert s[0..c1] == a;
    assert s[c1 + 1..lt] == o;
    assert s[lt + 1..c2] == x;
    assert s[c2 + 1..|s| - 1] == y;
    assert s[c2 + 1..] == y + ">";
  }

  lemma PlainPiece(s: string, piece: string, off: nat)
    requires off + |piece| <= |s| && s[off..off + |piece|] == piece && Plain(piece)
    ensures PlainRange(s, off, off + |piece|)
  {
    forall i | off <= i < off + |piece| ensures !Special(s[i]) {
      assert s[i] == piece[i - off];
    }
    PlainRangeByIndex(s, off, off + |piece|);
  }

  /** The example of the source's own documentation. */
  lemma DocumentedExample()
    ensures var b := "Bla<T extends Throwable>"; Elements("Bar" + "," + b) == ["Bar", b]
  {
    var a := "Bar";
    var b := "Bla<T extends Throwable>";
    assert IsTrimmed(a);
    assert IsTrimmed(b);
    SplitsInTwo(a, b);
    TrimmedIsFixpoint(a);
    TrimmedIsFixpoint(b);
  }
}
