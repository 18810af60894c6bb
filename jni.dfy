/**
 * `transformTypeToJNI`: the type part of a native-interface method signature, following the type
 * signatures of chapter 3 of the Java Native Interface Specification with the source's
 * simplifications: type arguments are cut off, every array type gets a single `[` however many
 * dimensions it has, a primitive type becomes its one-letter code and any other type becomes `L`, the
 * name with dots turned into slashes, and `;`.
 */
module NativeTypes {
  import opened Text
  import opened TypeTables

  /** The characters `\s` matches in a Java regular expression. */
  predicate IsRegexSpace(c: char) {
    c == ' ' || c == '\t' || c == '\n' || c == '\U{000B}' || c == '\U{000C}' || c == '\r'
  }

  /** The position after the run of `\s` characters that starts at i. */
  function SkipRegexSpaces(s: string, i: nat): (r: nat)
    requires i <= |s|
    ensures i <= r <= |s|
    ensures forall k :: i <= k < r ==> IsRegexSpace(s[k])
    ensures r < |s| ==> !IsRegexSpace(s[r])
    decreases |s| - i
  {
    if i < |s| && IsRegexSpace(s[i]) then SkipRegexSpaces(s, i + 1) else i
  }

  /** The length of a match of `\[\s*\]` at the start of s, 0 when there is none. */
  function PairAt(s: string): (r: nat)
    ensures r == 0 || (2 <= r <= |s| && s[0] == '[' && s[r - 1] == ']')
  {
    if s == [] || s[0] != '[' then 0
    else
      var k := SkipRegexSpaces(s, 1);
      if k < |s| && s[k] == ']' then k + 1 else 0
  }

  /**
   * `replaceAll("\\[\\s*\\]", "")`: matches are found left to right and removed; the text formed by a
   * removal is not searched again.
   */
  function RemoveBracketPairs(s: string): (r: string)
    ensures |r| <= |s|
    decreases |s|
  {
    if s == [] then []
    else if PairAt(s) > 0 then RemoveBracketPairs(s[PairAt(s)..])
    else [s[0]] + RemoveBracketPairs(s[1..])
  }

  /** The type with its type arguments cut off at the first `<`. */
  function Erased(t: string): (r: string)
    ensures '<' !in t ==> r == t
    ensures '<' !in r
  {
    IndexOfCharFinds(t, '<');
    if IndexOfChar(t, '<') >= 0 then t[..IndexOfChar(t, '<')] else t
  }

  /** The code of a type that is not an array: its primitive code or `L`, slashed name, `;`. */
  function ElementCode(q: string): (r: string)
    ensures r != []
  {
    if q in PrimitiveJniCodes then PrimitiveJniCodes[q] else "L" + DotsToSlashes(q) + ";"
  }

  /** `transformTypeToJNI`. */
  function JniType(t: string): (r: string)
    ensures r != []
  {
    var p := Erased(t);
    if '[' in p then "[" + ElementCode(RemoveBracketPairs(p)) else ElementCode(p)
  }

  /** n array dimensions, `[]` each. */
  function Dims(n: nat): string {
    if n == 0 then "" else "[]" + Dims(n - 1)
  }

  /** Text without a `[` is left alone by the bracket removal. */
  lemma {:induction false} NoBracketNoPairs(p: string)
    requires '[' !in p
    ensures RemoveBracketPairs(p) == p
  {
    if p != [] {
      assert p[1..] == p[1..];
      NoBracketNoPairs(p[1..]);
    }
  }

  /** Dimensions alone are removed completely. */
  lemma {:induction false} OnlyDimensionsRemoved(n: nat)
    ensures RemoveBracketPairs(Dims(n)) == ""
  {
    if n > 0 {
      var s := Dims(n);
      assert s[0] == '[' && s[1] == ']';
      assert SkipRegexSpaces(s, 1) == 1;
      assert s[2..] == Dims(n - 1);
      OnlyDimensionsRemoved(n - 1);
    }
  }

  /** All dimensions written after a name without brackets are removed. */
  lemma {:induction false} DimensionsRemoved(p: string, n: nat)
    requires '[' !in p
    ensures RemoveBracketPairs(p + Dims(n)) == p
  {
    if p == [] {
      assert p + Dims(n) == Dims(n);
      OnlyDimensionsRemoved(n);
    } else {
      var s := p + Dims(n);
      assert s[0] == p[0];
      assert s[1..] == p[1..] + Dims(n);
      DimensionsRemoved(p[1..], n);
    }
  }

  /** Any number of dimensions gives the single `[` followed by the element type's code. */
  lemma ArrayTypes(p: string, n: nat)
    requires '[' !in p && '<' !in p && n >= 1
    ensures JniType(p + Dims(n)) == "[" + JniType(p)
  {
    var t := p + Dims(n);
    DimsHaveNoAngle(n);
    assert '<' !in t;
    assert t[|p|] == '[';
    DimensionsRemoved(p, n);
  }

  lemma {:induction false} DimsHaveNoAngle(n: nat)
    ensures '<' !in Dims(n)
  {
    if n > 0 {
      DimsHaveNoAngle(n - 1);
    }
  }

  /** Type arguments are not part of the signature. */
  lemma TypeArgumentsErased(q: string, a: string)
    requires '<' !in q
    ensures JniType(q + "<" + a) == JniType(q)
  {
    var t := q + "<" + a;
    IndexOfCharFinds(t, '<');
    assert t[|q|] == '<';
    assert t[..|q|] == q;
  }

  /** The primitive type named by a one-letter code. */
  function PrimitiveOfCode(c: string): (r: string)
  {
    match c
      case "B" => "byte"
      case "S" => "short"
      case "I" => "int"
      case "J" => "long"
      case "F" => "float"
      case "D" => "double"
      case "Z" => "boolean"
      case "C" => "char"
      case "V" => "void"
      case _ => ""
  }

  /** Reads a type back from the code of a type without type arguments, brackets or slashes. */
  function DecodeType(code: string): (r: string)
  {
    if |code| >= 2 && code[0] == 'L' && code[|code| - 1] == ';' then SlashesToDots(code[1..|code| - 1])
    else PrimitiveOfCode(code)
  }

  lemma PrimitiveCodesDecode(p: string)
    requires p in PrimitiveJniCodes
    ensures PrimitiveOfCode(PrimitiveJniCodes[p]) == p && |PrimitiveJniCodes[p]| == 1
  {
  }

  /**
   * The code of a type without type arguments, brackets or slashes decodes back to the type, so
   * distinct such types get distinct codes.
   */
  lemma DecodeRoundTrip(t: string)
    requires IsPlainType(t)
    ensures DecodeType(JniType(t)) == t
  {
    if t in PrimitiveJniCodes {
      PrimitiveCodesDecode(t);
    } else {
      var code := "L" + DotsToSlashes(t) + ";";
      assert code[1..|code| - 1] == DotsToSlashes(t);
      SlashesRoundTrip(t);
    }
  }

  lemma JniTypeInjective(t: string, u: string)
    requires IsPlainType(t) && IsPlainType(u)
    requires JniType(t) == JniType(u)
    ensures t == u
  {
    DecodeRoundTrip(t);
    DecodeRoundTrip(u);
  }

  // ---------------------------------------------------------------------------------------------
  // Parameter codes

  /** The parameters' codes, appended one after the other as the source does. */
  function JniParams(ps: seq<string>): string {
    if ps == [] then "" else JniParams(ps[..|ps| - 1]) + JniType(ps[|ps| - 1])
  }

  /** The length of the code at the start of s: `[` and the code after it, `L` up to `;`, or one letter. */
  function CodeLength(s: string): (r: nat)
    requires s != []
    ensures 1 <= r <= |s|
  {
    if s[0] == '[' && |s| > 1 then 1 + CodeLength(s[1..])
    else if s[0] == 'L' then (var e := IndexOfChar(s, ';'); if e < 0 then |s| else e + 1)
    else 1
  }

  /** Cuts concatenated codes back into single codes. */
  function SplitCodes(s: string): (r: seq<string>)
    decreases |s|
  {
    if s == [] then [] else [s[..CodeLength(s)]] + SplitCodes(s[CodeLength(s)..])
  }

  lemma {:induction false} RemoveBracketPairsKeepsAbsence(s: string, c: char)
    requires c !in s
    ensures c !in RemoveBracketPairs(s)
    decreases |s|
  {
    if s != [] {
      if PairAt(s) > 0 {
        RemoveBracketPairsKeepsAbsence(s[PairAt(s)..], c);
      } else {
        RemoveBracketPairsKeepsAbsence(s[1..], c);
      }
    }
  }

  /** An element code followed by anything is read back whole. */
  lemma ElementCodeLength(q: string, rest: string)
    requires ';' !in q
    ensures CodeLength(ElementCode(q) + rest) == |ElementCode(q)|
  {
    if q !in PrimitiveJniCodes {
      ClassCodeLength(q, rest);
    } else {
      JniCodesCoverExactlyThePrimitives();
      PrimitiveCodesAreLetters(q);
    }
  }

  /** A class code `L...;` followed by anything is read back up to and including its `;`. */
  lemma ClassCodeLength(q: string, rest: string)
    requires ';' !in q
    ensures CodeLength("L" + DotsToSlashes(q) + ";" + rest) == |DotsToSlashes(q)| + 2
  {
    var d := DotsToSlashes(q);
    var s := "L" + d + ";" + rest;
    assert ';' !in d by {
      assert forall k :: 0 <= k < |d| ==> d[k] == '/' || d[k] == q[k];
    }
    assert s[|d| + 1] == ';';
    assert forall k :: 0 <= k < |d| + 1 ==> s[k] != ';' by {
      forall k | 0 <= k < |d| + 1 ensures s[k] != ';' {
        if k > 0 {
          assert s[k] == d[k - 1];
        }
      }
    }
    FirstOccurrenceFrom(s, ';', 0, |d| + 1);
  }

  lemma PrimitiveCodesAreLetters(q: string)
    requires q in PrimitiveJniCodes
    ensures |PrimitiveJniCodes[q]| == 1 && PrimitiveJniCodes[q][0] != '[' && PrimitiveJniCodes[q][0] != 'L'
  {
  }

  /** A type without type arguments, brackets or slashes: the code of such a type decodes back. */
  predicate IsPlainType(t: string) {
    '<' !in t && '[' !in t && '/' !in t
  }

  lemma ErasedKeepsAbsence(t: string, c: char)
    requires c !in t
    ensures c !in Erased(t)
  {
    IndexOfCharFinds(t, '<');
  }

  /** An array code followed by anything is read back whole. */
  lemma ArrayCodeLength(q: string, rest: string)
    requires ';' !in q
    ensures CodeLength("[" + ElementCode(q) + rest) == 1 + |ElementCode(q)|
  {
    ElementCodeLength(q, rest);
    BracketBeforeCode(ElementCode(q), rest);
  }

  /** A `[` before a code that is read back whole gives a code one longer. */
  lemma BracketBeforeCode(e: string, rest: string)
    requires e != [] && CodeLength(e + rest) == |e|
    ensures CodeLength("[" + e + rest) == 1 + |e|
  {
    var s := "[" + e + rest;
    assert s[0] == '[' && |s| > 1;
    assert s[1..] == e + rest;
  }

  /** The code of a type without `;` followed by anything is read back whole. */
  lemma TypeCodeLength(t: string, rest: string)
    requires ';' !in t
    ensures CodeLength(JniType(t) + rest) == |JniType(t)|
  {
    var p := Erased(t);
    ErasedKeepsAbsence(t, ';');
    if '[' in p {
      var q := RemoveBracketPairs(p);
      RemoveBracketPairsKeepsAbsence(p, ';');
      ArrayCodeLength(q, rest);
      assert JniType(t) + rest == "[" + ElementCode(q) + rest;
    } else {
      ElementCodeLength(p, rest);
    }
  }

  /** A code that is read back whole whatever follows it. */
  ghost predicate SelfDelimiting(c: string) {
    c != [] && forall rest :: CodeLength(c + rest) == |c|
  }

  lemma TypeCodeSelfDelimiting(t: string)
    requires ';' !in t
    ensures SelfDelimiting(JniType(t))
  {
    forall rest ensures CodeLength(JniType(t) + rest) == |JniType(t)| {
      TypeCodeLength(t, rest);
    }
  }

  /** The first code is cut off whole. */
  lemma SplitCodesHead(c: string, rest: string)
    requires SelfDelimiting(c)
    ensures SplitCodes(c + rest) == [c] + SplitCodes(rest)
  {
    var s := c + rest;
    assert CodeLength(s) == |c|;
    assert s[..|c|] == c && s[|c|..] == rest;
  }

  /** Codes written one after the other. */
  function Concat(cs: seq<string>): string {
    if cs == [] then "" else Concat(cs[..|cs| - 1]) + cs[|cs| - 1]
  }

  /** The codes of the parameters. */
  function Codes(ps: seq<string>): (r: seq<string>)
    ensures |r| == |ps| && forall k :: 0 <= k < |ps| ==> r[k] == JniType(ps[k])
  {
    seq(|ps|, k requires 0 <= k < |ps| => JniType(ps[k]))
  }

  lemma {:induction false} JniParamsConcatenatesCodes(ps: seq<string>)
    ensures JniParams(ps) == Concat(Codes(ps))
  {
    if ps != [] {
      var init := ps[..|ps| - 1];
      JniParamsConcatenatesCodes(init);
      assert Codes(ps)[..|ps| - 1] == Codes(init);
    }
  }

  lemma ConcatAssociates(a: string, b: string, c: string)
    ensures (a + b) + c == a + (b + c)
  {
  }

  /** Self-delimiting codes, followed by anything, are read back one by one. */
  lemma {:induction false} SplitConcat(cs: seq<string>, rest: string)
    requires forall k :: 0 <= k < |cs| ==> SelfDelimiting(cs[k])
    ensures SplitCodes(Concat(cs) + rest) == cs + SplitCodes(rest)
  {
    if cs == [] {
      assert Concat(cs) + rest == rest;
    } else {
      var init := cs[..|cs| - 1];
      var last := cs[|cs| - 1];
      assert forall k :: 0 <= k < |init| ==> init[k] == cs[k];
      SplitConcat(init, last + rest);
      assert cs == init + [last];
      SplitConcatStep(init, last, rest);
    }
  }

  /** The step of SplitConcat: one more code at the end of the concatenation. */
  lemma SplitConcatStep(init: seq<string>, last: string, rest: string)
    requires SelfDelimiting(last)
    requires SplitCodes(Concat(init) + (last + rest)) == init + SplitCodes(last + rest)
    ensures SplitCodes(Concat(init + [last]) + rest) == (init + [last]) + SplitCodes(rest)
  {
    var all := init + [last];
    assert all[..|init|] == init && all[|init|] == last;
    assert Concat(all) == Concat(init) + last;
    ConcatAssociates(Concat(init), last, rest);
    SplitCodesHead(last, rest);
    assert init + ([last] + SplitCodes(rest)) == all + SplitCodes(rest);
  }

  /** The codes of parameters without `;` are read back one by one. */
  lemma SplitCodesOfParams(ps: seq<string>)
    requires forall k :: 0 <= k < |ps| ==> ';' !in ps[k]
    ensures SplitCodes(JniParams(ps)) == Codes(ps)
  {
    var cs := Codes(ps);
    forall k | 0 <= k < |cs| ensures SelfDelimiting(cs[k]) {
      TypeCodeSelfDelimiting(ps[k]);
    }
    JniParamsConcatenatesCodes(ps);
    SplitConcat(cs, "");
    assert Concat(cs) + "" == Concat(cs);
    assert cs + SplitCodes("") == cs;
  }

  /**
   * The parameter codes of a signature are a round trip: they split back into the codes of the
   * parameters, and the codes of plain parameter types decode back to the types.
   */
  lemma ParamCodesRoundTrip(ps: seq<string>)
    requires forall k :: 0 <= k < |ps| ==> ';' !in ps[k]
    ensures |SplitCodes(JniParams(ps))| == |ps|
    ensures forall k :: 0 <= k < |ps| ==> SplitCodes(JniParams(ps))[k] == JniType(ps[k])
    ensures forall k :: 0 <= k < |ps| && IsPlainType(ps[k]) ==> DecodeType(SplitCodes(JniParams(ps))[k]) == ps[k]
  {
    SplitCodesOfParams(ps);
    forall k | 0 <= k < |ps| && IsPlainType(ps[k])
      ensures DecodeType(SplitCodes(JniParams(ps))[k]) == ps[k]
    {
      DecodeRoundTrip(ps[k]);
    }
  }
}
