/**
 * The two texts an identifier is written as: the identity string of `toString` and the native
 * signature of `toJavaNativeSignatureWithFeature`. Both end in `=` and the feature the declaration
 * comes from, and both can be read back.
 */
module Formats {
  import opened Text
  import opened TypeTables
  import opened NativeTypes
  import opened MethodIdentity

  /** The package and its dot, or nothing in the default package. */
  function PackagePrefix(pkg: string): (r: string)
    ensures pkg == "" ==> r == ""
    ensures pkg != "" ==> StartsWith(r, pkg) && |r| == |pkg| + 1 && r[|pkg|] == '.'
  {
    if pkg == "" then "" else pkg + "."
  }

  /** The parameter types joined with `;`, built as the source's loop builds it. */
  function JoinSemicolon(ps: seq<string>): string {
    if |ps| == 0 then ""
    else if |ps| == 1 then ps[0]
    else JoinSemicolon(ps[..|ps| - 1]) + ";" + ps[|ps| - 1]
  }

  /** Splits a text at every c. */
  function SplitOn(s: string, c: char): (r: seq<string>)
    ensures |r| >= 1
    decreases |s|
  {
    var i := LastIndexOfChar(s, c);
    if i < 0 then [s] else SplitOn(s[..i], c) + [s[i + 1..]]
  }

  /** The text before the parameters: the class, and for a method its name. */
  function Head(id: Identity): string {
    PackagePrefix(id.classPackage) + id.className + (if id.isConstructor then "" else "." + id.methodName)
  }

  /** `toString`: `pkg.Class.method(p1;p2)ret=feature`, or `pkg.Class(p1;p2)=feature` for a constructor. */
  function IdentityString(id: Identity): string {
    Head(id) + "(" + JoinSemicolon(id.parameterTypes) + ")"
      + (if id.isConstructor then "" else id.returnType) + "=" + id.originFeature
  }

  /** The text after the last c, all of it when there is none. */
  function AfterLast(s: string, c: char): string {
    s[LastIndexOfChar(s, c) + 1..]
  }

  /** The text between the first `(` and the first `)` after it, "" when there is no such pair. */
  function Parenthesised(s: string): string {
    var o := IndexOfChar(s, '(');
    if o < 0 then ""
    else
      var e := IndexOfCharFrom(s, ')', o + 1);
      if e < 0 then "" else s[o + 1..e]
  }

  // ---------------------------------------------------------------------------------------------
  // Reading the texts back

  /** Joining and splitting at `;` are inverse for a non-empty list of texts without `;`. */
  lemma {:induction false} SplitJoinRoundTrip(ps: seq<string>)
    requires ps != [] && forall k :: 0 <= k < |ps| ==> ';' !in ps[k]
    ensures SplitOn(JoinSemicolon(ps), ';') == ps
  {
    if |ps| == 1 {
      assert ';' !in ps[0];
    } else {
      var init := ps[..|ps| - 1];
      var last := ps[|ps| - 1];
      var j := JoinSemicolon(init);
      var s := j + ";" + last;
      assert JoinSemicolon(ps) == s;
      LastOccurrenceBefore(j, ';', last);
      assert s[..|j|] == j && s[|j| + 1..] == last;
      SplitJoinRoundTrip(init);
      assert init + [last] == ps;
    }
  }

  /** In `a c b` with no c in b, the last c is the one between a and b. */
  lemma LastOccurrenceBefore(a: string, c: char, b: string)
    requires c !in b
    ensures LastIndexOfChar(a + [c] + b, c) == |a|
  {
    var s := a + [c] + b;
    assert s[|a|] == c;
    assert forall k :: |a| < k < |s| ==> s[k] == b[k - |a| - 1];
  }

  /** The joined text holds no character that none of the parts holds, apart from `;`. */
  lemma {:induction false} JoinKeepsAbsence(ps: seq<string>, c: char)
    requires c != ';' && forall k :: 0 <= k < |ps| ==> c !in ps[k]
    ensures c !in JoinSemicolon(ps)
  {
    if |ps| > 1 {
      var init := ps[..|ps| - 1];
      assert forall k :: 0 <= k < |init| ==> init[k] == ps[k];
      JoinKeepsAbsence(init, c);
    }
  }

  /** The feature is what follows the last `=`, when it has no `=` of its own. */
  lemma FeatureAfterLastEquals(front: string, feature: string)
    requires '=' !in feature
    ensures AfterLast(front + "=" + feature, '=') == feature
  {
    LastOccurrenceBefore(front, '=', feature);
    var s := front + "=" + feature;
    assert s[|front| + 1..] == feature;
  }

  /** The text between the first `(` and the next `)`. */
  lemma ParenthesisedPart(head: string, mid: string, tail: string)
    requires '(' !in head && ')' !in mid
    ensures Parenthesised(head + "(" + mid + ")" + tail) == mid
  {
    var s := head + "(" + mid + ")" + tail;
    OpeningAfter(head, mid + ")" + tail);
    assert s == head + "(" + (mid + ")" + tail);
    ClosingAfter(head + "(", mid, tail);
    assert s[|head| + 1..|head| + 1 + |mid|] == mid;
  }

  /** The first `(` of `head(rest` is the one after head. */
  lemma OpeningAfter(head: string, rest: string)
    requires '(' !in head
    ensures IndexOfChar(head + "(" + rest, '(') == |head|
  {
    var s := head + "(" + rest;
    assert forall k :: 0 <= k < |head| ==> s[k] == head[k];
    FirstOccurrenceFrom(s, '(', 0, |head|);
  }

  /** Searching `front mid)tail` from the end of front finds the `)` after mid. */
  lemma ClosingAfter(front: string, mid: string, tail: string)
    requires ')' !in mid
    ensures |front| <= |front + mid + ")" + tail|
    ensures IndexOfCharFrom(front + mid + ")" + tail, ')', |front|) == |front| + |mid|
  {
    var s := front + mid + ")" + tail;
    assert forall k :: |front| <= k < |front| + |mid| ==> s[k] == mid[k - |front|];
    FirstOccurrenceFrom(s, ')', |front|, |front| + |mid|);
  }

  /** The feature is read back from the identity string. */
  lemma IdentityStringFeature(id: Identity)
    requires '=' !in id.originFeature
    ensures AfterLast(IdentityString(id), '=') == id.originFeature
  {
    var front := Head(id) + "(" + JoinSemicolon(id.parameterTypes) + ")"
      + (if id.isConstructor then "" else id.returnType);
    assert IdentityString(id) == front + "=" + id.originFeature;
    FeatureAfterLastEquals(front, id.originFeature);
  }

  /**
   * The parameter types are read back from the identity string, in order, when there is at least one
   * and neither the head nor the types hold the delimiters.
   */
  lemma IdentityStringParameters(id: Identity)
    requires id.parameterTypes != [] && '(' !in Head(id)
    requires forall k :: 0 <= k < |id.parameterTypes| ==> ';' !in id.parameterTypes[k] && ')' !in id.parameterTypes[k]
    ensures SplitOn(Parenthesised(IdentityString(id)), ';') == id.parameterTypes
  {
    var ps := id.parameterTypes;
    var tail := (if id.isConstructor then "" else id.returnType) + "=" + id.originFeature;
    JoinKeepsAbsence(ps, ')');
    assert IdentityString(id) == Head(id) + "(" + JoinSemicolon(ps) + ")" + tail;
    ParenthesisedPart(Head(id), JoinSemicolon(ps), tail);
    SplitJoinRoundTrip(ps);
  }

  /**
   * The package prefix is left out in the default package; otherwise the text starts with the package
   * and a dot. A constructor's string has neither the method name nor the return type.
   */
  lemma IdentityStringShape(id: Identity)
    ensures id.classPackage == "" ==> StartsWith(IdentityString(id), id.className)
    ensures id.classPackage != "" ==> StartsWith(IdentityString(id), id.classPackage + "." + id.className)
    ensures id.isConstructor ==>
      IdentityString(id) == PackagePrefix(id.classPackage) + id.className + "(" + JoinSemicolon(id.parameterTypes) + ")=" + id.originFeature
  {
    var s := IdentityString(id);
    var rest := (if id.isConstructor then "" else "." + id.methodName) + "(" + JoinSemicolon(id.parameterTypes) + ")"
      + (if id.isConstructor then "" else id.returnType) + "=" + id.originFeature;
    assert s == PackagePrefix(id.classPackage) + id.className + rest;
    if id.classPackage != "" {
      assert s == (id.classPackage + "." + id.className) + rest;
    } else {
      assert s == id.className + rest;
    }
  }

  /** The two forms `toString` writes out: one for a constructor, one for a method. */
  lemma IdentityStringCases(id: Identity)
    ensures id.isConstructor ==> IdentityString(id) == PackagePrefix(id.classPackage) + id.className + "(" + JoinSemicolon(id.parameterTypes) + ")" + "=" + id.originFeature
    ensures !id.isConstructor ==> IdentityString(id) == PackagePrefix(id.classPackage) + id.className + "." + id.methodName + "(" + JoinSemicolon(id.parameterTypes) + ")" + id.returnType + "=" + id.originFeature
  {
  }

  /** One more parameter type: the first stands alone, each later one follows a `;`. */
  lemma JoinSemicolonStep(ps: seq<string>, i: nat)
    requires i < |ps|
    ensures JoinSemicolon(ps[..i + 1]) == if i == 0 then ps[i] else JoinSemicolon(ps[..i]) + ";" + ps[i]
  {
    assert ps[..i + 1][..i] == ps[..i];
  }

  // ---------------------------------------------------------------------------------------------
  // Native signature

  /** The text before the parameter codes: the class, then `<init>` or the method's name. */
  function NativeHead(id: Identity): string {
    PackagePrefix(id.classPackage) + id.className + "." + (if id.isConstructor then "<init>" else id.methodName)
  }

  /**
   * `toJavaNativeSignatureWithFeature`: `pkg.Class.method(codes)RET=feature`, or
   * `pkg.Class.<init>(codes)=feature` for a constructor.
   */
  function NativeSignature(id: Identity): string {
    NativeHead(id) + "(" + JniParams(id.parameterTypes) + ")"
      + (if id.isConstructor then "" else JniType(id.returnType)) + "=" + id.originFeature
  }

  /** The two forms the native signature takes: without a return code for a constructor, with one for a method. */
  lemma NativeSignatureCases(id: Identity)
    ensures id.isConstructor ==> NativeSignature(id) == NativeHead(id) + "(" + JniParams(id.parameterTypes) + ")" + "=" + id.originFeature
    ensures !id.isConstructor ==> NativeSignature(id) == NativeHead(id) + "(" + JniParams(id.parameterTypes) + ")" + JniType(id.returnType) + "=" + id.originFeature
  {
  }

  /** One more parameter: its code is appended. */
  lemma JniParamsStep(ps: seq<string>, i: nat)
    requires i < |ps|
    ensures JniParams(ps[..i + 1]) == JniParams(ps[..i]) + JniType(ps[i])
  {
    assert ps[..i + 1][..i] == ps[..i];
  }

  /** The feature is read back from the native signature. */
  lemma NativeSignatureFeature(id: Identity)
    requires '=' !in id.originFeature
    ensures AfterLast(NativeSignature(id), '=') == id.originFeature
  {
    var front := NativeHead(id) + "(" + JniParams(id.parameterTypes) + ")"
      + (if id.isConstructor then "" else JniType(id.returnType));
    assert NativeSignature(id) == front + "=" + id.originFeature;
    FeatureAfterLastEquals(front, id.originFeature);
  }

  /** The codes hold no character that none of the types holds, apart from the code letters. */
  lemma {:induction false} JniParamsKeepAbsence(ps: seq<string>)
    requires forall k :: 0 <= k < |ps| ==> ')' !in ps[k]
    ensures ')' !in JniParams(ps)
  {
    if ps != [] {
      var init := ps[..|ps| - 1];
      assert forall k :: 0 <= k < |init| ==> init[k] == ps[k];
      JniParamsKeepAbsence(init);
      JniTypeKeepsParenthesisAbsent(ps[|ps| - 1]);
    }
  }

  lemma JniTypeKeepsParenthesisAbsent(t: string)
    requires ')' !in t
    ensures ')' !in JniType(t)
  {
    var p := Erased(t);
    ErasedKeepsAbsence(t, ')');
    var q := if '[' in p then RemoveBracketPairs(p) else p;
    RemoveBracketPairsKeepsAbsence(p, ')');
    ElementCodeKeepsParenthesisAbsent(q);
  }

  lemma ElementCodeKeepsParenthesisAbsent(q: string)
    requires ')' !in q
    ensures ')' !in ElementCode(q)
  {
    if q in PrimitiveJniCodes {
      PrimitiveCodesAreLetters(q);
      assert PrimitiveJniCodes[q] == [PrimitiveJniCodes[q][0]];
      PrimitiveCodeIsLetter(q);
    } else {
      var d := DotsToSlashes(q);
      assert forall k :: 0 <= k < |d| ==> d[k] == '/' || d[k] == q[k];
    }
  }

  lemma PrimitiveCodeIsLetter(q: string)
    requires q in PrimitiveJniCodes
    ensures ')' !in PrimitiveJniCodes[q]
  {
  }

  /**
   * The parameter codes are read back from the native signature, one per parameter, and for plain
   * types decoded to the types themselves.
   */
  lemma NativeSignatureParameters(id: Identity)
    requires '(' !in NativeHead(id)
    requires forall k :: 0 <= k < |id.parameterTypes| ==> ';' !in id.parameterTypes[k] && ')' !in id.parameterTypes[k]
    ensures var cs := SplitCodes(Parenthesised(NativeSignature(id)));
      && |cs| == |id.parameterTypes|
      && (forall k :: 0 <= k < |cs| ==> cs[k] == JniType(id.parameterTypes[k]))
      && (forall k :: 0 <= k < |cs| && IsPlainType(id.parameterTypes[k]) ==> DecodeType(cs[k]) == id.parameterTypes[k])
  {
    ParenthesisedNativeParameters(id);
    ParamCodesRoundTrip(id.parameterTypes);
  }

  /** Between the native signature's parentheses stand the parameters' codes. */
  lemma ParenthesisedNativeParameters(id: Identity)
    requires '(' !in NativeHead(id)
    requires forall k :: 0 <= k < |id.parameterTypes| ==> ')' !in id.parameterTypes[k]
    ensures Parenthesised(NativeSignature(id)) == JniParams(id.parameterTypes)
  {
    var ps := id.parameterTypes;
    var tail := (if id.isConstructor then "" else JniType(id.returnType)) + "=" + id.originFeature;
    JniParamsKeepAbsence(ps);
    assert NativeSignature(id) == NativeHead(id) + "(" + JniParams(ps) + ")" + tail;
    ParenthesisedPart(NativeHead(id), JniParams(ps), tail);
  }

  /**
   * A constructor's signature is that of a method named `<init>` without the return type's code: the
   * method's signature has the code inserted just before `=feature`.
   */
  lemma ConstructorSignatureHasNoReturnCode(id: Identity)
    requires id.isConstructor
    ensures var m := id.(isConstructor := false, methodName := "<init>");
      var s := NativeSignature(id);
      var k := |s| - |id.originFeature| - 1;
      0 <= k <= |s| && NativeSignature(m) == s[..k] + JniType(id.returnType) + s[k..]
  {
    var m := id.(isConstructor := false, methodName := "<init>");
    var front := NativeHead(id) + "(" + JniParams(id.parameterTypes) + ")";
    var back := "=" + id.originFeature;
    NativeSignatureCases(id);
    NativeSignatureCases(m);
    assert NativeHead(m) == NativeHead(id);
    ConcatAssociates(front, "=", id.originFeature);
    var s := NativeSignature(id);
    assert s == front + back;
    assert s[..|front|] == front && s[|front|..] == back;
    ConcatAssociates(front + JniType(id.returnType), "=", id.originFeature);
  }
}
