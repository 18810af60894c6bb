/** String operations of java.lang.String that the identity builder relies on, over seq<char>. */
module Text {

  /** `String.trim` drops every leading and trailing character whose code is at most U+0020. */
  predicate IsSpace(c: char) {
    c <= ' '
  }

  /** The first index at or after i whose character is not a space, or |s|. */
  function SkipSpaces(s: string, i: nat): (r: nat)
    requires i <= |s|
    ensures i <= r <= |s|
    ensures r == |s| || !IsSpace(s[r])
    decreases |s| - i
  {
    if i == |s| || !IsSpace(s[i]) then i else SkipSpaces(s, i + 1)
  }

  /** Walking back from n, but not past lo: the index just after the last non-space character, or lo. */
  function SkipSpacesBack(s: string, lo: nat, n: nat): (r: nat)
    requires lo <= n <= |s|
    ensures lo <= r <= n
    ensures r == lo || !IsSpace(s[r - 1])
  {
    if n == lo || !IsSpace(s[n - 1]) then n else SkipSpacesBack(s, lo, n - 1)
  }

  lemma {:induction false} SkippedAreSpaces(s: string, i: nat)
    requires i <= |s|
    ensures forall k :: i <= k < SkipSpaces(s, i) ==> IsSpace(s[k])
    decreases |s| - i
  {
    if i < |s| && IsSpace(s[i]) {
      SkippedAreSpaces(s, i + 1);
    }
  }

  lemma {:induction false} SkippedBackAreSpaces(s: string, lo: nat, n: nat)
    requires lo <= n <= |s|
    ensures forall k :: SkipSpacesBack(s, lo, n) <= k < n ==> IsSpace(s[k])
  {
    if n > lo && IsSpace(s[n - 1]) {
      SkippedBackAreSpaces(s, lo, n - 1);
    }
  }

  /** The text without its leading space characters. */
  function TrimStart(s: string): string {
    s[SkipSpaces(s, 0)..]
  }

  /**
   * `String.trim`: the start moves forward over space characters, then the end moves back over space
   * characters, never past the start.
   */
  function Trim(s: string): (r: string)
    ensures |r| <= |s|
  {
    var st := SkipSpaces(s, 0);
    s[st..SkipSpacesBack(s, st, |s|)]
  }

  predicate IsTrimmed(s: string) {
    s == [] || (!IsSpace(s[0]) && !IsSpace(s[|s| - 1]))
  }

  /** Trim keeps an infix, drops only space characters around it, and leaves no space at either end. */
  lemma TrimIsTrimmedInfix(s: string)
    ensures IsTrimmed(Trim(s))
    ensures exists i, j ::
      && 0 <= i <= j <= |s| && Trim(s) == s[i..j]
      && (forall k :: 0 <= k < i ==> IsSpace(s[k]))
      && (forall k :: j <= k < |s| ==> IsSpace(s[k]))
  {
    var st := SkipSpaces(s, 0);
    var en := SkipSpacesBack(s, st, |s|);
    SkippedAreSpaces(s, 0);
    SkippedBackAreSpaces(s, st, |s|);
    assert Trim(s) == s[st..en];
    if st < en {
      assert Trim(s)[0] == s[st];
    }
  }

  lemma TrimmedIsFixpoint(s: string)
    requires IsTrimmed(s)
    ensures Trim(s) == s
  {
    if s != [] {
      assert SkipSpaces(s, 0) == 0;
      assert SkipSpacesBack(s, 0, |s|) == |s|;
    }
  }

  lemma TrimIdempotent(s: string)
    ensures IsTrimmed(Trim(s)) && Trim(Trim(s)) == Trim(s)
  {
    TrimIsTrimmedInfix(s);
    TrimmedIsFixpoint(Trim(s));
  }

  /** Trimming a string that ends in a non-space character only trims its start. */
  lemma TrimKeepsNonSpaceEnd(s: string)
    requires s != [] && !IsSpace(s[|s| - 1])
    ensures Trim(s) == TrimStart(s)
  {
    var st := SkipSpaces(s, 0);
    SkippedAreSpaces(s, 0);
    assert st < |s|;
    assert SkipSpacesBack(s, st, |s|) == |s|;
  }

  lemma TrimIgnoresTrimStart(s: string)
    ensures Trim(TrimStart(s)) == Trim(s)
  {
    var st := SkipSpaces(s, 0);
    var t := s[st..];
    assert SkipSpaces(t, 0) == 0;
    SkipSpacesBackShift(s, st);
  }

  /** A leading space character makes no difference to the trimmed text. */
  lemma TrimIgnoresLeadingSpace(c: char, u: string)
    requires IsSpace(c)
    ensures Trim([c] + u) == Trim(u)
  {
    var s := [c] + u;
    SkipSpacesShift(c, u, 0);
    assert TrimStart(s) == TrimStart(u);
    TrimIgnoresTrimStart(s);
    TrimIgnoresTrimStart(u);
  }

  /** Skipping spaces in `[c] + u` from i + 1 is skipping them in u from i, one place further on. */
  lemma {:induction false} SkipSpacesShift(c: char, u: string, i: nat)
    requires i <= |u|
    ensures SkipSpaces([c] + u, i + 1) == SkipSpaces(u, i) + 1
    decreases |u| - i
  {
    if i < |u| {
      assert ([c] + u)[i + 1] == u[i];
      if IsSpace(u[i]) {
        SkipSpacesShift(c, u, i + 1);
      }
    }
  }

  /** Walking back over a suffix gives the same stopping point, shifted by the suffix's offset. */
  lemma {:induction false} SkipSpacesBackShift(s: string, st: nat)
    requires st <= |s|
    ensures SkipSpacesBack(s[st..], 0, |s| - st) + st == SkipSpacesBack(s, st, |s|)
  {
    SkipSpacesBackShiftFrom(s, st, |s|);
  }

  lemma {:induction false} SkipSpacesBackShiftFrom(s: string, st: nat, n: nat)
    requires st <= n <= |s|
    ensures SkipSpacesBack(s[st..], 0, n - st) + st == SkipSpacesBack(s, st, n)
    decreases n
  {
    if n > st {
      assert s[st..][n - st - 1] == s[n - 1];
      if IsSpace(s[n - 1]) {
        SkipSpacesBackShiftFrom(s, st, n - 1);
      }
    }
  }

  predicate StartsWith(s: string, p: string) {
    |p| <= |s| && s[..|p|] == p
  }

  predicate EndsWith(s: string, p: string) {
    |p| <= |s| && s[|s| - |p|..] == p
  }

  /** `String.indexOf(char)`: the first position of c in s, or -1 when c does not occur. */
  function IndexOfChar(s: string, c: char): (r: int)
    ensures -1 <= r < |s|
    ensures r >= 0 ==> s[r] == c
  {
    IndexOfCharFrom(s, c, 0)
  }

  function IndexOfCharFrom(s: string, c: char, i: nat): (r: int)
    requires i <= |s|
    ensures r == -1 || (i <= r < |s| && s[r] == c)
    decreases |s| - i
  {
    if i == |s| then -1 else if s[i] == c then i else IndexOfCharFrom(s, c, i + 1)
  }

  /** The search from i passes over no occurrence of c. */
  lemma {:induction false} IndexOfCharFromFinds(s: string, c: char, i: nat)
    requires i <= |s|
    ensures var r := IndexOfCharFrom(s, c, i);
            forall k :: i <= k < |s| && (r == -1 || k < r) ==> s[k] != c
    decreases |s| - i
  {
    if i < |s| && s[i] != c {
      IndexOfCharFromFinds(s, c, i + 1);
    }
  }

  /** The search from i stops at the first c at or after i. */
  lemma FirstOccurrenceFrom(s: string, c: char, i: nat, p: nat)
    requires i <= p < |s| && s[p] == c
    requires forall k :: i <= k < p ==> s[k] != c
    ensures IndexOfCharFrom(s, c, i) == p
  {
    IndexOfCharFromFinds(s, c, i);
  }

  /** -1 exactly when c does not occur; otherwise no earlier position holds c. */
  lemma IndexOfCharFinds(s: string, c: char)
    ensures IndexOfChar(s, c) == -1 <==> c !in s
    ensures forall k :: 0 <= k < IndexOfChar(s, c) ==> s[k] != c
  {
    IndexOfCharFromFinds(s, c, 0);
  }

  /** `String.lastIndexOf(char)`, -1 when the character does not occur. */
  function LastIndexOfChar(s: string, c: char): (r: int)
    ensures -1 <= r < |s|
    ensures r == -1 <==> c !in s
    ensures r >= 0 ==> s[r] == c
    ensures forall k :: r < k < |s| ==> s[k] != c
  {
    LastIndexOfCharBefore(s, c, |s|)
  }

  function LastIndexOfCharBefore(s: string, c: char, n: nat): (r: int)
    requires n <= |s|
    ensures -1 <= r < n
    ensures r >= 0 ==> s[r] == c
    ensures forall k :: r < k < n ==> s[k] != c
  {
    if n == 0 then -1
    else if s[n - 1] == c then n - 1
    else LastIndexOfCharBefore(s, c, n - 1)
  }

  predicate OccursAt(s: string, w: string, i: nat) {
    i + |w| <= |s| && s[i..i + |w|] == w
  }

  predicate Contains(s: string, w: string) {
    exists i: nat | i <= |s| :: OccursAt(s, w, i)
  }

  /** `String.indexOf(String)` from position i on, -1 when there is no occurrence. */
  function IndexOfFrom(s: string, w: string, i: nat): (r: int)
    requires i <= |s|
    ensures r == -1 || (i <= r && r + |w| <= |s|)
    decreases |s| - i
  {
    if OccursAt(s, w, i) then i
    else if i == |s| then -1
    else IndexOfFrom(s, w, i + 1)
  }

  /** The search from i finds the first occurrence at or after i, or reports that there is none. */
  lemma {:induction false} IndexOfFromFinds(s: string, w: string, i: nat)
    requires i <= |s|
    ensures var r := IndexOfFrom(s, w, i);
            && (r == -1 || OccursAt(s, w, r))
            && forall j: nat :: i <= j && (r == -1 || j < r) ==> !OccursAt(s, w, j)
    decreases |s| - i
  {
    if !OccursAt(s, w, i) && i < |s| {
      IndexOfFromFinds(s, w, i + 1);
    }
  }

  /** `String.indexOf(String)`: the start of the first occurrence of w in s, or -1. */
  function IndexOf(s: string, w: string): (r: int)
    ensures r == -1 || (0 <= r && r + |w| <= |s|)
  {
    IndexOfFrom(s, w, 0)
  }

  lemma IndexOfFinds(s: string, w: string)
    ensures IndexOf(s, w) == -1 <==> !Contains(s, w)
    ensures IndexOf(s, w) >= 0 ==>
      OccursAt(s, w, IndexOf(s, w)) && forall j: nat :: j < IndexOf(s, w) ==> !OccursAt(s, w, j)
  {
    IndexOfFromFinds(s, w, 0);
  }

  /** A text that lacks one of the characters of a word does not contain the word. */
  lemma MissingCharMeansNoOccurrence(s: string, w: string, k: nat)
    requires k < |w| && w[k] !in s
    ensures IndexOf(s, w) == -1
  {
    IndexOfFinds(s, w);
  }

  /**
   * `String.replaceAll(w, "")` for a pattern without regular-expression metacharacters: occurrences are
   * found left to right, do not overlap, and text formed by a removal is not searched again.
   */
  function RemoveAll(s: string, w: string): (r: string)
    requires w != []
    ensures |r| <= |s|
    ensures !Contains(s, w) ==> r == s
  {
    if |s| < |w| then s
    else if s[..|w|] == w then
      assert OccursAt(s, w, 0);
      RemoveAll(s[|w|..], w)
    else
      var r := [s[0]] + RemoveAll(s[1..], w);
      assert !Contains(s, w) ==> !Contains(s[1..], w) by {
        if Contains(s[1..], w) {
          var i: nat :| i <= |s[1..]| && OccursAt(s[1..], w, i);
          assert s[i + 1..i + 1 + |w|] == s[1..][i..i + |w|];
          assert OccursAt(s, w, i + 1);
        }
      }
      r
  }

  /**
   * Removing every occurrence keeps the text before the first occurrence, drops that occurrence and
   * goes on removing in the text after it.
   */
  lemma RemoveAllAtFirstOccurrence(s: string, w: string)
    requires w != [] && IndexOf(s, w) >= 0
    ensures var i := IndexOf(s, w);
            RemoveAll(s, w) == s[..i] + RemoveAll(s[i + |w|..], w)
  {
    var i := IndexOf(s, w);
    IndexOfFinds(s, w);
    assert NoOccurrenceBefore(s, w, i);
    RemoveAllBefore(s, w, i);
  }

  /** w does not occur in s at any position before i. */
  predicate NoOccurrenceBefore(s: string, w: string, i: nat) {
    forall j: nat :: j < i ==> !OccursAt(s, w, j)
  }

  /** Removing every occurrence of w from s keeps s[..i], drops w and goes on after it. */
  predicate RemovesAt(s: string, w: string, i: nat)
    requires w != [] && i + |w| <= |s|
  {
    RemoveAll(s, w) == s[..i] + RemoveAll(s[i + |w|..], w)
  }

  /** The same step, for an occurrence at i with none before it. */
  lemma {:induction false} RemoveAllBefore(s: string, w: string, i: nat)
    requires w != [] && OccursAt(s, w, i) && NoOccurrenceBefore(s, w, i)
    ensures RemovesAt(s, w, i)
    decreases i
  {
    if i == 0 {
      assert s[..|w|] == w;
      assert s[..0] == [];
    } else {
      OccurrenceAfterFirstChar(s, w, i);
      RemoveAllBefore(s[1..], w, i - 1);
      RemoveAllBeforeStep(s, w, i);
    }
  }

  /** The inductive step: what holds for the text after the first character holds for the whole text. */
  lemma RemoveAllBeforeStep(s: string, w: string, i: nat)
    requires w != [] && 0 < i && i + |w| <= |s| && !OccursAt(s, w, 0)
    requires RemovesAt(s[1..], w, i - 1)
    ensures RemovesAt(s, w, i)
  {
    RemoveAllKeepsFirst(s, w);
    SlicesAfterFirstChar(s, i, i + |w|);
    RegroupAfterFirstChar(s, i, RemoveAll(s, w), RemoveAll(s[1..], w), RemoveAll(s[i + |w|..], w));
  }

  /** A first occurrence at i > 0 is the first occurrence at i - 1 in the text after the first character. */
  lemma OccurrenceAfterFirstChar(s: string, w: string, i: nat)
    requires 0 < i && OccursAt(s, w, i) && NoOccurrenceBefore(s, w, i)
    ensures !OccursAt(s, w, 0)
    ensures OccursAt(s[1..], w, i - 1) && NoOccurrenceBefore(s[1..], w, i - 1)
  {
    assert !OccursAt(s, w, 0);
    forall j: nat | j < i - 1
      ensures !OccursAt(s[1..], w, j)
    {
      OccursAtAfterFirstChar(s, w, j + 1);
    }
    OccursAtAfterFirstChar(s, w, i);
  }

  /** An occurrence at j > 0 is an occurrence at j - 1 in the text after the first character. */
  lemma OccursAtAfterFirstChar(s: string, w: string, j: nat)
    requires 0 < j <= |s|
    ensures OccursAt(s[1..], w, j - 1) == OccursAt(s, w, j)
  {
    if j + |w| <= |s| {
      assert s[1..][j - 1..j - 1 + |w|] == s[j..j + |w|];
    }
  }

  /** A text that does not start with the word keeps its first character. */
  lemma RemoveAllKeepsFirst(s: string, w: string)
    requires w != [] && |s| >= |w| && s[..|w|] != w
    ensures RemoveAll(s, w) == [s[0]] + RemoveAll(s[1..], w)
  {
  }

  /** A text built from the first character and a piece of the rest, regrouped around the prefix of length i. */
  lemma RegroupAfterFirstChar(s: string, i: nat, whole: string, tail: string, rest: string)
    requires 0 < i <= |s|
    requires whole == [s[0]] + tail && tail == s[1..][..i - 1] + rest
    ensures whole == s[..i] + rest
  {
    assert [s[0]] + s[1..][..i - 1] == s[..i];
  }

  /** Slices of the text after its first character, put back in terms of the whole text. */
  lemma SlicesAfterFirstChar(s: string, i: nat, j: nat)
    requires 0 < i <= j <= |s|
    ensures [s[0]] + s[1..][..i - 1] == s[..i]
    ensures s[1..][j - 1..] == s[j..]
  {
  }

  /** A word without the character c occurs in `a + [c] + b` only if it occurs in a or in b. */
  lemma AbsentAcrossSeparator(a: string, c: char, b: string, w: string)
    requires c !in w && !Contains(a, w) && !Contains(b, w)
    ensures !Contains(a + [c] + b, w)
  {
    var s := a + [c] + b;
    forall i: nat | i <= |s|
      ensures !OccursAt(s, w, i)
    {
      if i + |w| <= |a| {
        assert s[i..i + |w|] == a[i..i + |w|];
        assert !OccursAt(a, w, i);
      } else if i > |a| {
        if i + |w| <= |s| {
          assert s[i..i + |w|] == b[i - |a| - 1..i - |a| - 1 + |w|];
          assert !OccursAt(b, w, i - |a| - 1);
        }
      } else if i + |w| <= |s| {
        assert s[i..i + |w|][|a| - i] == c;
      }
    }
  }

  /** `String.replaceFirst(w, "")` for a pattern without regular-expression metacharacters. */
  function RemoveFirst(s: string, w: string): (r: string)
    ensures !Contains(s, w) ==> r == s
    ensures Contains(s, w) ==> |r| == |s| - |w|
  {
    IndexOfFinds(s, w);
    var i := IndexOf(s, w);
    if i < 0 then s else s[..i] + s[i + |w|..]
  }

  /** `String.replaceAll("\\.", "/")`: every dot becomes a slash. */
  function DotsToSlashes(s: string): (r: string)
    ensures |r| == |s|
    ensures forall i :: 0 <= i < |s| ==> r[i] == (if s[i] == '.' then '/' else s[i])
  {
    if s == [] then [] else [if s[0] == '.' then '/' else s[0]] + DotsToSlashes(s[1..])
  }

  function SlashesToDots(s: string): (r: string)
    ensures |r| == |s|
    ensures forall i :: 0 <= i < |s| ==> r[i] == (if s[i] == '/' then '.' else s[i])
  {
    if s == [] then [] else [if s[0] == '/' then '.' else s[0]] + SlashesToDots(s[1..])
  }

  /** A name without slashes is recovered from its slashed form. */
  lemma SlashesRoundTrip(s: string)
    requires '/' !in s
    ensures SlashesToDots(DotsToSlashes(s)) == s
  {
    var r := SlashesToDots(DotsToSlashes(s));
    assert forall i :: 0 <= i < |s| ==> r[i] == s[i] by {
      forall i | 0 <= i < |s| ensures r[i] == s[i] {
        assert s[i] != '/';
      }
    }
  }

  /** Leading spaces of a text are those of its first part when the second part starts with a non-space. */
  lemma TrimStartConcat(a: string, b: string)
    requires b != [] && !IsSpace(b[0])
    ensures TrimStart(a + b) == TrimStart(a) + b
  {
    SkipSpacesConcat(a, b, 0);
    var st := SkipSpaces(a, 0);
    assert (a + b)[st..] == a[st..] + b;
  }

  lemma {:induction false} SkipSpacesConcat(a: string, b: string, i: nat)
    requires b != [] && !IsSpace(b[0]) && i <= |a|
    ensures SkipSpaces(a + b, i) == SkipSpaces(a, i)
    decreases |a| - i
  {
    if i < |a| {
      assert (a + b)[i] == a[i];
      if IsSpace(a[i]) {
        SkipSpacesConcat(a, b, i + 1);
      }
    } else {
      assert (a + b)[i] == b[0];
    }
  }

  /** Trimming only removes characters. */
  lemma TrimKeepsAbsence(s: string, c: char)
    requires c !in s
    ensures c !in Trim(s)
  {
    var st := SkipSpaces(s, 0);
    AbsentFromSlice(s, c, st, SkipSpacesBack(s, st, |s|));
  }

  lemma AbsentFromSlice(s: string, c: char, i: nat, j: nat)
    requires c !in s && i <= j <= |s|
    ensures c !in s[i..j]
  {
    forall k | 0 <= k < j - i ensures s[i..j][k] != c {
      assert s[i..j][k] == s[i + k];
    }
  }
}
