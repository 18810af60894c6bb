/**
 * `resolveImportedTypeName`: rewrites the text of a type to its qualified form. The rules are tried in
 * order: array suffix, type arguments, `implements`/`extends` bounds, primitive, import table, the
 * `java.lang` catalogue, and last the current package. A `<` as the last character makes the source
 * take a substring with its start past its end, which throws; that outcome is None here.
 */
module TypeResolution {
  import opened Options
  import opened Text
  import opened ParamSplit
  import opened TypeTables

  /**
   * What resolution reads besides the type itself: the package of the compilation unit, the import
   * table, and the catalogue of names resolved into `java.lang` (TypeTables.JavaLangTypes in the
   * identifiers built from declarations).
   */
  datatype Scope = Scope(pkg: string, imports: map<string, string>, javaLang: set<string>)

  const Implements := " implements "
  const Extends := " extends "

  function Resolve(t: string, sc: Scope): Option<string>
    decreases |t|, 3
  {
    if EndsWith(t, "[]") then
      var inner := Resolve(Trim(t[..|t| - 2]), sc);
      if inner.None? then None else Some(inner.value + "[]")
    else if IndexOfChar(t, '<') >= 0 then ResolveGeneric(t, IndexOfChar(t, '<'), sc)
    else if IndexOf(t, Implements) >= 0 then ResolveBound(t, Implements, sc)
    else if IndexOf(t, Extends) >= 0 then ResolveBound(t, Extends, sc)
    else if t in PrimitiveTypeNames then Some(t)
    else if t in sc.imports then Some(sc.imports[t])
    else if t in sc.javaLang then Some("java.lang." + t)
    else if sc.pkg == "" then Some(t)
    else Some(sc.pkg + "." + t)
  }

  /** `Outer<A1, ..., Ak>` with its first `<` at g: the outer name and every argument are resolved. */
  function ResolveGeneric(t: string, g: nat, sc: Scope): Option<string>
    requires g < |t|
    decreases |t|, 2
  {
    if g == |t| - 1 then None
    else
      var outer := Resolve(Trim(t[..g]), sc);
      var args := ResolveArguments(Trim(t[g + 1..|t| - 1]), |t|, sc);
      if outer.None? || args.None? then None
      else Some(outer.value + "<" + JoinTypeArgs(args.value) + ">")
  }

  /** The interior of the angle brackets, split into elements and each element resolved. */
  function ResolveArguments(interior: string, bound: nat, sc: Scope)
    : Option<seq<string>>
    requires |interior| < bound
    decreases bound, 1
  {
    ElementsAreTrimmedInfixes(interior);
    ResolveAll(Elements(interior), bound, sc)
  }

  /** `X kw Y` split at the first occurrence of the keyword: both sides resolved, the keyword kept. */
  function ResolveBound(t: string, kw: string, sc: Scope): Option<string>
    requires kw != [] && IndexOf(t, kw) >= 0
    decreases |t|, 2
  {
    var b := IndexOf(t, kw);
    var lhs := Resolve(Trim(t[..b]), sc);
    var rhs := Resolve(Trim(t[b + |kw|..]), sc);
    if lhs.None? || rhs.None? then None else Some(lhs.value + kw + rhs.value)
  }

  /** Resolves every element of a type-argument list, in order; fails when any element fails. */
  function ResolveAll(es: seq<string>, bound: nat, sc: Scope)
    : Option<seq<string>>
    requires forall k :: 0 <= k < |es| ==> |es[k]| < bound
    decreases bound, 0, |es|
  {
    if es == [] then Some([])
    else
      var head := Resolve(es[0], sc);
      var tail := ResolveAll(es[1..], bound, sc);
      if head.None? || tail.None? then None else Some([head.value] + tail.value)
  }

  /**
   * How the source joins resolved type arguments: an empty accumulator takes the argument, a non-empty
   * one is replaced by ", " and the argument, so all arguments but the last are lost.
   */
  function JoinTypeArgs(ts: seq<string>): string {
    if ts == [] then "" else
      var prev := JoinTypeArgs(ts[..|ts| - 1]);
      if prev == "" then ts[|ts| - 1] else ", " + ts[|ts| - 1]
  }

  /** A type-argument list resolves when every argument does, and then argument by argument. */
  lemma {:induction false} ResolveAllPointwise(es: seq<string>, bound: nat, sc: Scope)
    requires forall k :: 0 <= k < |es| ==> |es[k]| < bound
    ensures ResolveAll(es, bound, sc).Some?
        <==> forall k :: 0 <= k < |es| ==> Resolve(es[k], sc).Some?
    ensures ResolveAll(es, bound, sc).Some? ==>
      var rs := ResolveAll(es, bound, sc).value;
      |rs| == |es| && forall k :: 0 <= k < |es| ==> rs[k] == Resolve(es[k], sc).value
    decreases |es|
  {
    if es != [] {
      var tail := es[1..];
      ResolveAllPointwise(tail, bound, sc);
      var h := Resolve(es[0], sc);
      var rt := ResolveAll(tail, bound, sc);
      assert ResolveAll(es, bound, sc) == if h.None? || rt.None? then None else Some([h.value] + rt.value);
      assert forall k :: 1 <= k < |es| ==> es[k] == tail[k - 1];
    }
  }

  /**
   * The joined text is the last argument alone when every argument before it resolved to the empty
   * text, and otherwise ", " and the last argument.
   */
  lemma {:induction false} JoinKeepsOnlyLast(ts: seq<string>)
    requires ts != []
    ensures JoinTypeArgs(ts)
         == if forall i :: 0 <= i < |ts| - 1 ==> ts[i] == "" then ts[|ts| - 1] else ", " + ts[|ts| - 1]
    decreases |ts|
  {
    var init := ts[..|ts| - 1];
    if |ts| > 1 {
      JoinKeepsOnlyLast(init);
      assert init[|init| - 1] == ts[|ts| - 2];
      if forall i :: 0 <= i < |ts| - 1 ==> ts[i] == "" {
        assert forall i :: 0 <= i < |init| - 1 ==> init[i] == "";
      } else if forall i :: 0 <= i < |init| - 1 ==> init[i] == "" {
        assert init[|init| - 1] != "";
      }
    }
  }

  /** `base` followed by n pairs of square brackets. */
  function WithDimensions(base: string, n: nat): string {
    if n == 0 then base else WithDimensions(base, n - 1) + "[]"
  }

  function AppendToResult(r: Option<string>, suffix: string): Option<string> {
    if r.None? then None else Some(r.value + suffix)
  }

  /** The array rule, tried before every other: one `[]` is taken off, the rest resolved, `[]` put back. */
  lemma ArraySuffix(t: string, sc: Scope)
    requires EndsWith(t, "[]")
    ensures Resolve(t, sc) == AppendToResult(Resolve(Trim(t[..|t| - 2]), sc), "[]")
  {
  }

  /** Array suffixes are taken off one by one, the trimmed rest resolved, and the suffixes put back. */
  lemma {:induction false} ArrayDimensions(base: string, n: nat, sc: Scope)
    requires n >= 1
    ensures Resolve(WithDimensions(base, n), sc)
         == AppendToResult(Resolve(Trim(base), sc), WithDimensions("", n))
    decreases n, 2
  {
    if n == 1 {
      OneDimension(base, sc);
    } else {
      MoreDimensions(base, n, sc);
    }
  }

  lemma OneDimension(base: string, sc: Scope)
    ensures Resolve(WithDimensions(base, 1), sc)
         == AppendToResult(Resolve(Trim(base), sc), WithDimensions("", 1))
  {
    var r := Resolve(Trim(base), sc);
    var outer := Resolve(WithDimensions(base, 1), sc);
    assert outer == AppendToResult(r, "[]") by {
      assert WithDimensions(base, 0) == base;
      PeelOneDimension(base, 1, sc);
    }
    assert WithDimensions("", 1) == "[]";
  }

  lemma {:induction false} MoreDimensions(base: string, n: nat, sc: Scope)
    requires n >= 2
    ensures Resolve(WithDimensions(base, n), sc)
         == AppendToResult(Resolve(Trim(base), sc), WithDimensions("", n))
    decreases n, 1
  {
    var r := Resolve(Trim(base), sc);
    var inner := Resolve(Trim(WithDimensions(base, n - 1)), sc);
    var outer := Resolve(WithDimensions(base, n), sc);
    ArrayDimensionsInner(base, n - 1, sc);
    PeelOneDimension(base, n, sc);
    AppendTwice(outer, inner, r, n);
  }

  lemma PeelOneDimension(base: string, n: nat, sc: Scope)
    requires n >= 1
    ensures Resolve(WithDimensions(base, n), sc)
         == AppendToResult(Resolve(Trim(WithDimensions(base, n - 1)), sc), "[]")
  {
    var t := WithDimensions(base, n);
    assert EndsWith(t, "[]") && t[..|t| - 2] == WithDimensions(base, n - 1);
    ArraySuffix(t, sc);
  }

  /** The step of ArrayDimensions: the text under the outermost `[]` resolves like the trimmed base. */
  lemma {:induction false} ArrayDimensionsInner(base: string, n: nat, sc: Scope)
    requires n >= 1
    ensures Resolve(Trim(WithDimensions(base, n)), sc)
         == AppendToResult(Resolve(Trim(base), sc), WithDimensions("", n))
    decreases n, 3
  {
    var inner := WithDimensions(base, n);
    assert Trim(inner) == WithDimensions(TrimStart(base), n) by {
      DimensionsEnd(base, n);
      TrimKeepsNonSpaceEnd(inner);
      DimensionsTrimStart(base, n);
    }
    assert Trim(TrimStart(base)) == Trim(base) by {
      TrimIgnoresTrimStart(base);
    }
    ArrayDimensions(TrimStart(base), n, sc);
  }

  lemma AppendTwice(outer: Option<string>, inner: Option<string>, r: Option<string>, n: nat)
    requires n >= 1
    requires outer == AppendToResult(inner, "[]")
    requires inner == AppendToResult(r, WithDimensions("", n - 1))
    ensures outer == AppendToResult(r, WithDimensions("", n))
  {
    if r.Some? {
      assert r.value + WithDimensions("", n - 1) + "[]" == r.value + WithDimensions("", n);
    }
  }

  lemma {:induction false} DimensionsEnd(base: string, n: nat)
    requires n >= 1
    ensures WithDimensions(base, n) != [] && WithDimensions(base, n)[|WithDimensions(base, n)| - 1] == ']'
  {
  }

  lemma {:induction false} DimensionsTrimStart(base: string, n: nat)
    requires n >= 1
    ensures TrimStart(WithDimensions(base, n)) == WithDimensions(TrimStart(base), n)
  {
    var d := WithDimensions("", n);
    DimensionsSplit(base, n);
    DimensionsSplit(TrimStart(base), n);
    DimensionsStart(n);
    TrimStartConcat(base, d);
  }

  lemma {:induction false} DimensionsSplit(base: string, n: nat)
    ensures WithDimensions(base, n) == base + WithDimensions("", n)
  {
    if n > 0 {
      DimensionsSplit(base, n - 1);
    }
  }

  lemma {:induction false} DimensionsStart(n: nat)
    requires n >= 1
    ensures WithDimensions("", n) != [] && WithDimensions("", n)[0] == '['
  {
    if n > 1 {
      DimensionsStart(n - 1);
    }
  }

  /** A name with no blank, no angle bracket and no square bracket: only the lookup rules apply to it. */
  predicate IsSimpleName(t: string) {
    ' ' !in t && '<' !in t && '[' !in t
  }

  lemma NoKeywordInSimpleName(t: string, kw: string)
    requires ' ' !in t && kw != [] && kw[0] == ' '
    ensures !Contains(t, kw)
  {
    forall i: nat | i <= |t| ensures !OccursAt(t, kw, i) {
      if i + |kw| <= |t| {
        assert t[i..i + |kw|][0] == t[i];
      }
    }
  }

  lemma SimpleNameSkipsStructuralRules(t: string)
    requires IsSimpleName(t)
    ensures !EndsWith(t, "[]") && IndexOfChar(t, '<') == -1 && IndexOf(t, Implements) == -1 && IndexOf(t, Extends) == -1
  {
    IndexOfCharFinds(t, '<');
    if |t| >= 2 {
      assert t[|t| - 2] != '[';
    }
    NoKeywordInSimpleName(t, Implements);
    NoKeywordInSimpleName(t, Extends);
    IndexOfFinds(t, Implements);
    IndexOfFinds(t, Extends);
  }

  /**
   * The lookup order for a simple name: a primitive stays as it is, whatever is imported; an imported
   * name takes its import, even over `java.lang`; a `java.lang` name gets that prefix; anything else is
   * taken to be in the current package, or left alone in the default package.
   */
  lemma SimpleNamePrecedence(t: string, sc: Scope)
    requires !EndsWith(t, "[]") && '<' !in t && IndexOf(t, Implements) == -1 && IndexOf(t, Extends) == -1
    ensures t in PrimitiveTypeNames ==> Resolve(t, sc) == Some(t)
    ensures t !in PrimitiveTypeNames && t in sc.imports ==> Resolve(t, sc) == Some(sc.imports[t])
    ensures t !in PrimitiveTypeNames && t !in sc.imports && t in sc.javaLang
        ==> Resolve(t, sc) == Some("java.lang." + t)
    ensures t !in PrimitiveTypeNames && t !in sc.imports && t !in sc.javaLang
        ==> Resolve(t, sc) == Some(if sc.pkg == "" then t else sc.pkg + "." + t)
  {
    IndexOfCharFinds(t, '<');
  }

  /** Only a stray `<` makes resolution fail: text without one always resolves. */
  lemma {:induction false} NoAngleBracketNeverFails(t: string, sc: Scope)
    requires '<' !in t
    ensures Resolve(t, sc).Some?
    decreases |t|, 2
  {
    IndexOfCharFinds(t, '<');
    if EndsWith(t, "[]") {
      ArrayCaseResolves(t, sc);
    } else if IndexOf(t, Implements) >= 0 {
      BoundCaseResolves(t, Implements, sc);
    } else if IndexOf(t, Extends) >= 0 {
      BoundCaseResolves(t, Extends, sc);
    }
  }

  lemma {:induction false} ArrayCaseResolves(t: string, sc: Scope)
    requires '<' !in t && EndsWith(t, "[]")
    ensures Resolve(t, sc).Some?
    decreases |t|, 1
  {
    var u := t[..|t| - 2];
    AbsentFromSlice(t, '<', 0, |t| - 2);
    TrimKeepsAbsence(u, '<');
    NoAngleBracketNeverFails(Trim(u), sc);
    ArraySuffix(t, sc);
  }

  lemma {:induction false} BoundCaseResolves(t: string, kw: string, sc: Scope)
    requires '<' !in t && kw != [] && IndexOf(t, kw) >= 0
    ensures ResolveBound(t, kw, sc).Some?
    decreases |t|, 1
  {
    var b := IndexOf(t, kw);
    PrefixResolves(t, b, sc);
    SuffixResolves(t, b + |kw|, sc);
    BoundParts(t, kw, sc);
  }

  /** A proper prefix of a text without `<`, trimmed, resolves. */
  lemma {:induction false} PrefixResolves(t: string, n: nat, sc: Scope)
    requires '<' !in t && n < |t|
    ensures Resolve(Trim(t[..n]), sc).Some?
    decreases |t|, 0
  {
    AbsentFromSlice(t, '<', 0, n);
    assert t[0..n] == t[..n];
    TrimKeepsAbsence(t[..n], '<');
    NoAngleBracketNeverFails(Trim(t[..n]), sc);
  }

  /** A proper suffix of a text without `<`, trimmed, resolves. */
  lemma {:induction false} SuffixResolves(t: string, n: nat, sc: Scope)
    requires '<' !in t && 0 < n <= |t|
    ensures Resolve(Trim(t[n..]), sc).Some?
    decreases |t|, 0
  {
    AbsentFromSlice(t, '<', n, |t|);
    assert t[n..|t|] == t[n..];
    TrimKeepsAbsence(t[n..], '<');
    NoAngleBracketNeverFails(Trim(t[n..]), sc);
  }

  lemma BoundParts(t: string, kw: string, sc: Scope)
    requires kw != [] && IndexOf(t, kw) >= 0
    ensures var b := IndexOf(t, kw);
      Resolve(Trim(t[..b]), sc).Some? && Resolve(Trim(t[b + |kw|..]), sc).Some?
      ==> ResolveBound(t, kw, sc).Some?
  {
  }

  /** A `<` as the last character of a type without array suffix fails (the source's substring throws). */
  lemma OpenBracketAtEndFails(u: string, sc: Scope)
    requires '<' !in u
    ensures Resolve(u + "<", sc) == None
  {
    var t := u + "<";
    assert t[|t| - 1] == '<';
    assert !EndsWith(t, "[]");
    assert forall k :: 0 <= k < |u| ==> t[k] == u[k];
    IndexOfCharFinds(t, '<');
    assert IndexOfChar(t, '<') == |u|;
  }

  /** The text of `o<a>` with no `<` in o: the generic rule applies, at the first `<`. */
  lemma FirstAngle(o: string, a: string)
    requires '<' !in o
    ensures var t := o + "<" + a + ">";
            && !EndsWith(t, "[]") && IndexOfChar(t, '<') == |o|
            && t[..|o|] == o && t[|o| + 1..|t| - 1] == a
  {
    var t := o + "<" + a + ">";
    assert t[|o|] == '<';
    assert t[|t| - 2..][1] == '>';
    assert forall k :: 0 <= k < |o| ==> t[k] == o[k];
    IndexOfCharFinds(t, '<');
    assert t[..|o|] == o;
    assert t[|o| + 1..|t| - 1] == a;
  }

  /**
   * `o<a>`: the outer name and each element of the trimmed interior are resolved, and the results are
   * put together with the source's join.
   */
  lemma {:induction false} GenericRule(o: string, a: string, sc: Scope)
    requires '<' !in o
    ensures var t := o + "<" + a + ">";
            var es := Elements(Trim(a));
            && (forall k :: 0 <= k < |es| ==> |es[k]| < |t|)
            && Resolve(t, sc)
               == var outer := Resolve(Trim(o), sc);
                  var args := ResolveAll(es, |t|, sc);
                  if outer.None? || args.None? then None
                  else Some(outer.value + "<" + JoinTypeArgs(args.value) + ">")
  {
    var t := o + "<" + a + ">";
    FirstAngle(o, a);
    GenericDispatch(t, sc);
    GenericParts(t, |o|, sc);
  }

  lemma GenericDispatch(t: string, sc: Scope)
    requires !EndsWith(t, "[]") && IndexOfChar(t, '<') >= 0
    ensures Resolve(t, sc) == ResolveGeneric(t, IndexOfChar(t, '<'), sc)
  {
  }

  lemma GenericParts(t: string, g: nat, sc: Scope)
    requires g < |t| - 1
    ensures var es := Elements(Trim(t[g + 1..|t| - 1]));
            && (forall k :: 0 <= k < |es| ==> |es[k]| < |t|)
            && ResolveGeneric(t, g, sc)
               == var outer := Resolve(Trim(t[..g]), sc);
                  var args := ResolveAll(es, |t|, sc);
                  if outer.None? || args.None? then None
                  else Some(outer.value + "<" + JoinTypeArgs(args.value) + ">")
  {
    ElementsAreTrimmedInfixes(Trim(t[g + 1..|t| - 1]));
  }

  /** With a single element between the brackets, `o<a>` resolves to the resolved outer name and element. */
  lemma {:induction false} GenericOneArgument(o: string, a: string, sc: Scope)
    requires '<' !in o && |Elements(Trim(a))| == 1
    ensures var outer := Resolve(Trim(o), sc);
            var arg := Resolve(Elements(Trim(a))[0], sc);
            Resolve(o + "<" + a + ">", sc)
            == if outer.Some? && arg.Some? then Some(outer.value + "<" + arg.value + ">") else None
  {
    var t := o + "<" + a + ">";
    var es := Elements(Trim(a));
    GenericRule(o, a, sc);
    ResolveAllPointwise(es, |t|, sc);
    var args := ResolveAll(es, |t|, sc);
    if args.Some? {
      JoinKeepsOnlyLast(args.value);
    }
  }

  /** With two or more elements, `o<a>` resolves exactly when the outer name and every element do. */
  lemma {:induction false} GenericSeveralArguments(o: string, a: string, sc: Scope)
    requires '<' !in o && |Elements(Trim(a))| >= 2
    ensures var es := Elements(Trim(a));
            Resolve(o + "<" + a + ">", sc).Some?
            <==> Resolve(Trim(o), sc).Some? && forall k :: 0 <= k < |es| ==> Resolve(es[k], sc).Some?
  {
    var t := o + "<" + a + ">";
    GenericRule(o, a, sc);
    ResolveAllPointwise(Elements(Trim(a)), |t|, sc);
  }

  /**
   * With two or more elements, once the first resolves to non-empty text, only ", " and the last
   * resolved element are kept inside the brackets.
   */
  lemma {:induction false} GenericKeepsLastArgument(o: string, a: string, sc: Scope)
    requires '<' !in o && |Elements(Trim(a))| >= 2
    requires Resolve(Trim(o), sc).Some?
    requires forall k :: 0 <= k < |Elements(Trim(a))| ==> Resolve(Elements(Trim(a))[k], sc).Some?
    requires Resolve(Elements(Trim(a))[0], sc).value != ""
    ensures var es := Elements(Trim(a));
            Resolve(o + "<" + a + ">", sc)
            == Some(Resolve(Trim(o), sc).value + "<, " + Resolve(es[|es| - 1], sc).value + ">")
  {
    var t := o + "<" + a + ">";
    var es := Elements(Trim(a));
    GenericRule(o, a, sc);
    ResolveAllPointwise(es, |t|, sc);
    assert ResolveAll(es, |t|, sc).Some?;
    var rs := ResolveAll(es, |t|, sc).value;
    var outer := Resolve(Trim(o), sc).value;
    assert Resolve(t, sc) == Some(outer + "<" + JoinTypeArgs(rs) + ">");
    assert rs[0] == Resolve(es[0], sc).value;
    var x := rs[|rs| - 1];
    assert x == Resolve(es[|es| - 1], sc).value;
    JoinFirstNonEmpty(rs);
    assert outer + "<" + JoinTypeArgs(rs) + ">" == outer + "<, " + x + ">";
  }

  lemma JoinFirstNonEmpty(ts: seq<string>)
    requires |ts| >= 2 && ts[0] != ""
    ensures JoinTypeArgs(ts) == ", " + ts[|ts| - 1]
  {
    JoinKeepsOnlyLast(ts);
  }

  /** A bound keyword: a blank at each end and none inside. */
  predicate IsKeyword(kw: string) {
    |kw| >= 2 && kw[0] == ' ' && kw[|kw| - 1] == ' ' && forall k :: 0 < k < |kw| - 1 ==> kw[k] != ' '
  }

  lemma BoundKeywords()
    ensures IsKeyword(Implements) && IsKeyword(Extends) && |Implements| != |Extends|
    ensures '<' !in Implements && '[' !in Implements && '<' !in Extends && '[' !in Extends
  {
  }

  /** Between two simple names the only blanks of `l + kw + r` are the two ends of the keyword. */
  lemma KeywordBlanks(l: string, kw: string, r: string, j: nat)
    requires ' ' !in l && ' ' !in r && IsKeyword(kw) && j < |l + kw + r|
    ensures (l + kw + r)[j] == ' ' <==> j == |l| || j == |l| + |kw| - 1
  {
    var t := l + kw + r;
    if j < |l| {
      assert t[j] == l[j];
    } else if j < |l| + |kw| {
      assert t[j] == kw[j - |l|];
    } else {
      assert t[j] == r[j - |l| - |kw|];
    }
  }

  /** Any keyword found in `l + kw + r` starts where kw does and is as long as kw. */
  lemma KeywordOnlyAtItsPlace(l: string, kw: string, r: string, w: string, i: nat)
    requires ' ' !in l && ' ' !in r && IsKeyword(kw) && IsKeyword(w)
    requires OccursAt(l + kw + r, w, i)
    ensures i == |l| && |w| == |kw|
  {
    var t := l + kw + r;
    assert t[i..i + |w|][0] == t[i];
    assert t[i..i + |w|][|w| - 1] == t[i + |w| - 1];
    KeywordBlanks(l, kw, r, i);
    KeywordBlanks(l, kw, r, i + |w| - 1);
  }

  lemma KeywordFound(l: string, kw: string, r: string)
    requires ' ' !in l && ' ' !in r && IsKeyword(kw)
    ensures IndexOf(l + kw + r, kw) == |l|
  {
    var t := l + kw + r;
    assert t[|l|..|l| + |kw|] == kw;
    assert OccursAt(t, kw, |l|);
    IndexOfFinds(t, kw);
    KeywordOnlyAtItsPlace(l, kw, r, kw, IndexOf(t, kw));
  }

  lemma OtherKeywordAbsent(l: string, kw: string, r: string, w: string)
    requires ' ' !in l && ' ' !in r && IsKeyword(kw) && IsKeyword(w) && |w| != |kw|
    ensures IndexOf(l + kw + r, w) == -1
  {
    IndexOfFinds(l + kw + r, w);
    if IndexOf(l + kw + r, w) >= 0 {
      KeywordOnlyAtItsPlace(l, kw, r, w, IndexOf(l + kw + r, w));
    }
  }

  /** `l kw r` between two simple names reaches none of the rules tried before the bounds. */
  lemma BoundSkipsEarlierRules(l: string, kw: string, r: string)
    requires IsSimpleName(l) && IsSimpleName(r) && IsKeyword(kw) && '<' !in kw && '[' !in kw
    ensures !EndsWith(l + kw + r, "[]") && IndexOfChar(l + kw + r, '<') == -1
  {
    var t := l + kw + r;
    IndexOfCharFinds(t, '<');
    assert t[|t| - 2..][0] == t[|t| - 2];
    if |r| >= 2 {
      assert t[|t| - 2] == r[|r| - 2];
    } else {
      assert t[|t| - 2] == (kw + r)[|kw| + |r| - 2];
    }
  }

  /** A text with a bound keyword and none of the earlier markers is resolved as a bound. */
  lemma BoundDispatch(t: string, kw: string, sc: Scope)
    requires !EndsWith(t, "[]") && IndexOfChar(t, '<') == -1
    requires kw == Implements ==> IndexOf(t, Implements) >= 0
    requires kw == Extends ==> IndexOf(t, Implements) == -1 && IndexOf(t, Extends) >= 0
    requires kw == Implements || kw == Extends
    ensures Resolve(t, sc) == ResolveBound(t, kw, sc)
  {
  }

  /** Split at the keyword, the two sides are resolved as they stand when they are already trimmed. */
  lemma BoundSides(l: string, kw: string, r: string, sc: Scope)
    requires kw != [] && IndexOf(l + kw + r, kw) == |l| && IsTrimmed(l) && IsTrimmed(r)
    ensures var lhs := Resolve(l, sc); var rhs := Resolve(r, sc);
      ResolveBound(l + kw + r, kw, sc) == if lhs.None? || rhs.None? then None else Some(lhs.value + kw + rhs.value)
  {
    var t := l + kw + r;
    assert t[..|l|] == l;
    assert t[|l| + |kw|..] == r;
    TrimmedIsFixpoint(l);
    TrimmedIsFixpoint(r);
  }

  /**
   * A bound between two simple names resolves each side by the lookup rules and keeps the keyword
   * between them; `implements` is tried before `extends`, but only one of them can occur here.
   */
  lemma BoundRule(l: string, kw: string, r: string, sc: Scope)
    requires IsSimpleName(l) && IsTrimmed(l) && IsSimpleName(r) && IsTrimmed(r)
    requires kw == Implements || kw == Extends
    ensures Resolve(l, sc).Some? && Resolve(r, sc).Some?
    ensures Resolve(l + kw + r, sc) == Some(Resolve(l, sc).value + kw + Resolve(r, sc).value)
  {
    BoundKeywords();
    SimpleNameSkipsStructuralRules(l);
    SimpleNameSkipsStructuralRules(r);
    SimpleNamePrecedence(l, sc);
    SimpleNamePrecedence(r, sc);
    BoundSkipsEarlierRules(l, kw, r);
    KeywordFound(l, kw, r);
    if kw == Extends {
      OtherKeywordAbsent(l, kw, r, Implements);
    }
    BoundDispatch(l + kw + r, kw, sc);
    BoundSides(l, kw, r, sc);
  }

  /**
   * The documented bound example: in package `p`, with neither name imported and only `Throwable`
   * in the `java.lang` catalogue, `T extends Throwable` resolves both sides of the keyword.
   */
  lemma BoundExample(sc: Scope)
    requires sc.pkg == "p" && "T" !in sc.imports && "Throwable" !in sc.imports
    requires "T" !in sc.javaLang && "Throwable" in sc.javaLang
    ensures Resolve("T" + Extends + "Throwable", sc) == Some("p.T" + Extends + "java.lang.Throwable")
  {
    BoundRule("T", Extends, "Throwable", sc);
    ExampleVariable(sc);
    ExampleCatalogueName(sc);
  }

  /** The left side of the bound example: a name from nowhere else is put in the current package. */
  lemma ExampleVariable(sc: Scope)
    requires sc.pkg == "p" && "T" !in sc.imports && "T" !in sc.javaLang
    ensures Resolve("T", sc) == Some("p.T")
  {
    SimpleNameSkipsStructuralRules("T");
    SimpleNamePrecedence("T", sc);
    assert "T" !in PrimitiveTypeNames;
    assert "p" + "." + "T" == "p.T";
  }

  /** The right side of the bound example: a catalogue name that is not imported goes to `java.lang`. */
  lemma ExampleCatalogueName(sc: Scope)
    requires "Throwable" !in sc.imports && "Throwable" in sc.javaLang
    ensures Resolve("Throwable", sc) == Some("java.lang.Throwable")
  {
    SimpleNameSkipsStructuralRules("Throwable");
    SimpleNamePrecedence("Throwable", sc);
    assert "Throwable" !in PrimitiveTypeNames;
    assert "java.lang." + "Throwable" == "java.lang.Throwable";
  }

  /** The source's catalogue meets the example's hypotheses about `java.lang`. */
  lemma CatalogueFacts()
    ensures "Throwable" in JavaLangTypes()
    ensures "T" !in JavaLangTypes()
  {
    assert "Throwable" in LangClasses();
    ShortNameNotInCatalogue("T");
  }
}
