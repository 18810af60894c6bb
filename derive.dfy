/**
 * What the `MethodIdentifier(functionNode, classNode)` constructor derives from a declaration: the
 * units it reads, the package with its fallback, the merged import table, the return type with its
 * modifier words removed, and one resolved type per parameter. The derivation is a function here; the
 * class in Identifiers computes it step by step and is proved to agree with it.
 */
module MethodIdentity {
  import opened Options
  import opened Text
  import opened ParamSplit
  import opened TypeTables
  import opened TypeResolution
  import opened SyntaxTree

  const ConstructorKind := "ConstructorDecl"
  const MethodKind := "MethodDecl"

  /** What the signature parser yields for a declaration: its name, return type and parameter list. */
  datatype Signature = Signature(name: string, returnType: string, paramlist: string)

  /** The fields of an identifier. */
  datatype Identity = Identity(
    isConstructor: bool,
    methodName: string,
    className: string,
    classPackage: string,
    parameterTypes: seq<string>,
    returnType: string,
    originFeature: string)

  // ---------------------------------------------------------------------------------------------
  // Return type

  /** The words removed from the return type, in the order the source removes them. */
  const Modifiers: seq<string> :=
    ["public", "private", "static", "protected", "final", "synchronized", "native", "abstract",
     "transient", "strictfp"]

  /** Removes every occurrence of each word in turn. */
  function RemoveWords(t: string, ws: seq<string>): (r: string)
    requires forall i :: 0 <= i < |ws| ==> ws[i] != []
    ensures |r| <= |t|
    ensures (forall i :: 0 <= i < |ws| ==> !Contains(t, ws[i])) ==> r == t
    decreases |ws|
  {
    if ws == [] then t else RemoveWords(RemoveAll(t, ws[0]), ws[1..])
  }

  /** The return type with the modifier words removed and the rest trimmed. */
  function StripModifiers(t: string): (r: string)
    ensures (forall i :: 0 <= i < |Modifiers| ==> !Contains(t, Modifiers[i])) ==> r == Trim(t)
  {
    Trim(RemoveWords(t, Modifiers))
  }

  /** A word with a character that the text lacks does not occur in it. */
  lemma WordAbsent(t: string, w: string, k: nat)
    requires k < |w| && w[k] !in t
    ensures !Contains(t, w)
  {
    MissingCharMeansNoOccurrence(t, w, k);
    IndexOfFinds(t, w);
  }

  /** Removing a word that starts the text and does not occur in the rest leaves the rest. */
  lemma RemoveLeadingWord(w: string, rest: string)
    requires w != [] && !Contains(rest, w)
    ensures RemoveAll(w + rest, w) == rest
  {
    var s := w + rest;
    assert s[..|w|] == w;
    assert s[|w|..] == rest;
  }

  /** One removal step: the first word is removed, then the remaining ones. */
  lemma RemoveWordsStep(t: string, n: nat, u: string)
    requires n < |Modifiers| && RemoveAll(t, Modifiers[n]) == u
    ensures RemoveWords(t, Modifiers[n..]) == RemoveWords(u, Modifiers[n + 1..])
  {
    assert Modifiers[n..][1..] == Modifiers[n + 1..];
  }

  /** No modifier word occurs in t. */
  predicate NoModifierWord(t: string) {
    forall k :: 0 <= k < |Modifiers| ==> !Contains(t, Modifiers[k])
  }

  /**
   * For modifier words j and i, the index of a character of word j that word i lacks (0 where
   * i == j): no modifier word occurs inside another one.
   */
  const ApartAt: seq<seq<nat>> :=
    [[0, 1, 0, 1, 0, 0, 0, 0, 0, 1],
     [1, 0, 0, 2, 0, 0, 0, 0, 0, 3],
     [0, 0, 0, 0, 0, 1, 0, 4, 5, 2],
     [1, 2, 0, 0, 0, 0, 0, 0, 0, 2],
     [0, 0, 0, 0, 0, 0, 0, 0, 0, 2],
     [0, 0, 1, 0, 0, 0, 0, 1, 1, 1],
     [0, 0, 0, 0, 2, 1, 0, 0, 4, 0],
     [0, 1, 1, 0, 1, 0, 1, 0, 1, 0],
     [0, 3, 1, 2, 0, 0, 1, 3, 0, 2],
     [0, 0, 2, 0, 0, 1, 0, 3, 4, 0]]

  /** No modifier word contains a blank or another modifier word. */
  lemma ModifiersApart(i: nat, j: nat)
    requires i < |Modifiers| && j < |Modifiers|
    ensures ' ' !in Modifiers[j]
    ensures i != j ==> !Contains(Modifiers[i], Modifiers[j])
  {
    if i != j {
      if j < 3 {
        EarlyModifierApart(i, j);
      } else if j < 6 {
        MiddleModifierApart(i, j);
      } else {
        LateModifierApart(i, j);
      }
    }
  }

  lemma EarlyModifierApart(i: nat, j: nat)
    requires i < |Modifiers| && j < 3 && i != j
    ensures !Contains(Modifiers[i], Modifiers[j])
  {
    WordAbsent(Modifiers[i], Modifiers[j], ApartAt[j][i]);
  }

  lemma MiddleModifierApart(i: nat, j: nat)
    requires i < |Modifiers| && 3 <= j < 6 && i != j
    ensures !Contains(Modifiers[i], Modifiers[j])
  {
    WordAbsent(Modifiers[i], Modifiers[j], ApartAt[j][i]);
  }

  lemma LateModifierApart(i: nat, j: nat)
    requires i < |Modifiers| && 6 <= j < |Modifiers| && i != j
    ensures !Contains(Modifiers[i], Modifiers[j])
  {
    WordAbsent(Modifiers[i], Modifiers[j], ApartAt[j][i]);
  }

  /** A blank followed by a text without modifier words has none either. */
  lemma NoModifierAfterBlank(u: string)
    requires NoModifierWord(u)
    ensures NoModifierWord(" " + u)
  {
    forall k | 0 <= k < |Modifiers|
      ensures !Contains(" " + u, Modifiers[k])
    {
      ModifiersApart(k, k);
      assert !OccursAt([], Modifiers[k], 0);
      AbsentAcrossSeparator([], ' ', u, Modifiers[k]);
      assert [] + [' '] + u == " " + u;
    }
  }

  /**
   * Removing the words from n on, where word p (n <= p) starts the text and is followed by a blank
   * and a text without modifier words, leaves the blank and that text.
   */
  predicate RemovesLeadingModifier(p: nat, u: string, n: nat)
    requires p < |Modifiers| && n <= |Modifiers|
  {
    RemoveWords(Modifiers[p] + " " + u, Modifiers[n..]) == " " + u
  }

  lemma {:induction false} LeadingModifierRemoved(p: nat, u: string, n: nat)
    requires n <= p < |Modifiers| && NoModifierWord(u)
    ensures RemovesLeadingModifier(p, u, n)
    decreases p - n
  {
    var t := Modifiers[p] + " " + u;
    ModifiersApart(p, n);
    if n < p {
      AbsentAcrossSeparator(Modifiers[p], ' ', u, Modifiers[n]);
      RemoveWordsStep(t, n, t);
      LeadingModifierRemoved(p, u, n + 1);
    } else {
      NoModifierAfterBlank(u);
      assert t == Modifiers[p] + (" " + u);
      RemoveLeadingWord(Modifiers[p], " " + u);
      RemoveWordsStep(t, p, " " + u);
    }
  }

  /**
   * A return type made of one modifier word, a blank and a text without modifier words strips to
   * that text, trimmed.
   */
  lemma LeadingModifierStripped(m: string, u: string)
    requires m in Modifiers && NoModifierWord(u)
    ensures StripModifiers(m + " " + u) == Trim(u)
  {
    var p :| 0 <= p < |Modifiers| && Modifiers[p] == m;
    assert Modifiers[0..] == Modifiers;
    LeadingModifierRemoved(p, u, 0);
    TrimIgnoresLeadingSpace(' ', u);
  }

  /** The modifiers before the return type are removed: `public static int` returns `int`. */
  lemma ModifiersBeforeTypeRemoved(t: string)
    requires t == "public static int"
    ensures StripModifiers(t) == "int"
  {
    assert Modifiers[0..] == Modifiers;
    PublicAndPrivateRemoved(t);
    StaticAndRestRemoved(" static int");
    LeadingBlanksTrimmed("  int");
  }

  lemma PublicAndPrivateRemoved(t: string)
    requires t == "public static int"
    ensures RemoveWords(t, Modifiers[0..]) == RemoveWords(" static int", Modifiers[2..])
  {
    assert Modifiers[0] == "public";
    PublicRemoved();
    assert RemoveAll(t, Modifiers[0]) == " static int";
    RemoveWordsStep(t, 0, " static int");
    PrivateAbsent(" static int");
  }

  lemma PrivateAbsent(t1: string)
    requires t1 == " static int"
    ensures RemoveWords(t1, Modifiers[1..]) == RemoveWords(t1, Modifiers[2..])
  {
    assert Modifiers[1] == "private";
    WordAbsent(t1, "private", 0);
    RemoveWordsStep(t1, 1, t1);
  }

  lemma StaticAndRestRemoved(t1: string)
    requires t1 == " static int"
    ensures RemoveWords(t1, Modifiers[2..]) == "  int"
  {
    assert Modifiers[2] == "static";
    StaticRemoved();
    assert RemoveAll(t1, Modifiers[2]) == "  int";
    RemoveWordsStep(t1, 2, "  int");
    NoModifierInInt("  int");
  }

  lemma LeadingBlanksTrimmed(t3: string)
    requires t3 == "  int"
    ensures Trim(t3) == "int"
  {
    assert SkipSpaces(t3, 2) == 2;
    assert SkipSpaces(t3, 0) == 2;
    assert SkipSpacesBack(t3, 2, 5) == 5;
    assert t3[2..5] == "int";
  }

  lemma PublicRemoved()
    ensures RemoveAll("public static int", "public") == " static int"
  {
    WordAbsent(" static int", "public", 0);
    assert "public static int" == "public" + " static int";
    RemoveLeadingWord("public", " static int");
  }

  lemma StaticRemoved()
    ensures RemoveAll(" static int", "static") == "  int"
  {
    var t1 := " static int";
    WordAbsent(" int", "static", 0);
    assert "static int" == "static" + " int";
    RemoveLeadingWord("static", " int");
    assert t1[1..] == "static int";
    assert t1[..6] != "static" by { assert t1[0] != 's'; }
  }

  lemma NoModifierInInt(t3: string)
    requires t3 == "  int"
    ensures RemoveWords(t3, Modifiers[3..]) == t3
  {
    WordAbsent(t3, "protected", 0);
    WordAbsent(t3, "final", 0);
    WordAbsent(t3, "synchronized", 0);
    WordAbsent(t3, "native", 1);
    WordAbsent(t3, "abstract", 0);
    WordAbsent(t3, "transient", 1);
    WordAbsent(t3, "strictfp", 0);
    assert Modifiers[3..] == ["protected", "final", "synchronized", "native", "abstract", "transient", "strictfp"];
  }

  /**
   * The words are removed wherever they occur, also inside a name: the return type `x.finaly.T`
   * becomes `x.y.T`.
   */
  lemma ModifierInsideNameRemoved(t0: string)
    requires t0 == "x.finaly.T"
    ensures StripModifiers(t0) == "x.y.T"
  {
    assert Modifiers[0..] == Modifiers;
    EarlyModifiersKept(t0);
    FinalStep(t0);
    NoLateModifierInName("x.y.T");
    TrimmedIsFixpoint("x.y.T");
  }

  lemma EarlyModifiersKept(t0: string)
    requires t0 == "x.finaly.T"
    ensures RemoveWords(t0, Modifiers[0..]) == RemoveWords(t0, Modifiers[4..])
  {
    NoEarlyModifierInName(t0);
    RemoveWordsStep(t0, 0, t0);
    RemoveWordsStep(t0, 1, t0);
    RemoveWordsStep(t0, 2, t0);
    RemoveWordsStep(t0, 3, t0);
  }

  lemma FinalStep(t0: string)
    requires t0 == "x.finaly.T"
    ensures RemoveWords(t0, Modifiers[4..]) == RemoveWords("x.y.T", Modifiers[5..])
  {
    assert Modifiers[4] == "final";
    FinalRemoved();
    assert RemoveAll(t0, Modifiers[4]) == "x.y.T";
    RemoveWordsStep(t0, 4, "x.y.T");
  }

  lemma NoEarlyModifierInName(t0: string)
    requires t0 == "x.finaly.T"
    ensures RemoveAll(t0, "public") == t0 && RemoveAll(t0, "private") == t0
    ensures RemoveAll(t0, "static") == t0 && RemoveAll(t0, "protected") == t0
  {
    WordAbsent(t0, "public", 0);
    WordAbsent(t0, "private", 0);
    WordAbsent(t0, "static", 0);
    WordAbsent(t0, "protected", 0);
  }

  lemma FinalRemoved()
    ensures RemoveAll("x.finaly.T", "final") == "x.y.T"
  {
    FinalRemovedAfterDot();
    KeptBeforeWord("x.finaly.T", "final");
    assert "x.finaly.T"[1..] == ".finaly.T";
    assert ['x'] + ".y.T" == "x.y.T";
  }

  lemma FinalRemovedAfterDot()
    ensures RemoveAll(".finaly.T", "final") == ".y.T"
  {
    FinalRemovedFromWord();
    KeptBeforeWord(".finaly.T", "final");
    assert ".finaly.T"[1..] == "finaly.T";
    assert ['.'] + "y.T" == ".y.T";
  }

  lemma FinalRemovedFromWord()
    ensures RemoveAll("finaly.T", "final") == "y.T"
  {
    WordAbsent("y.T", "final", 0);
    assert "finaly.T" == "final" + "y.T";
    RemoveLeadingWord("final", "y.T");
  }

  /** A text that does not start with the word keeps its first character. */
  lemma KeptBeforeWord(s: string, w: string)
    requires w != [] && |s| >= |w| && s[0] != w[0]
    ensures RemoveAll(s, w) == [s[0]] + RemoveAll(s[1..], w)
  {
    assert s[..|w|][0] == s[0];
  }

  lemma NoLateModifierInName(t1: string)
    requires t1 == "x.y.T"
    ensures RemoveWords(t1, Modifiers[5..]) == t1
  {
    WordAbsent(t1, "synchronized", 0);
    WordAbsent(t1, "native", 0);
    WordAbsent(t1, "abstract", 0);
    WordAbsent(t1, "transient", 1);
    WordAbsent(t1, "strictfp", 0);
    assert Modifiers[5..] == ["synchronized", "native", "abstract", "transient", "strictfp"];
  }

  // ---------------------------------------------------------------------------------------------
  // Parameters

  /**
   * The type of one parameter: the text before its last blank, trimmed, so that the parameter's name
   * is dropped. A parameter without a blank makes the source take a substring ending at -1, which
   * throws; that is None here.
   */
  function ParamType(param: string): (r: Option<string>)
    ensures r.None? <==> ' ' !in param
  {
    var b := LastIndexOfChar(param, ' ');
    if b < 0 then None else Some(Trim(param[..b]))
  }

  /** `T name` with a name without blanks has the type T, trimmed. */
  lemma ParamTypeDropsName(ty: string, name: string)
    requires ' ' !in name
    ensures ParamType(ty + " " + name) == Some(Trim(ty))
  {
    var p := ty + " " + name;
    assert p[|ty|] == ' ';
    assert forall k :: |ty| < k < |p| ==> p[k] == name[k - |ty| - 1];
    assert p[..|ty|] == ty;
  }

  /** One parameter's resolved type. */
  function ParamOf(e: string, sc: Scope): Option<string> {
    var t := ParamType(e);
    if t.None? then None else Resolve(t.value, sc)
  }

  /** The resolved types of the parameters, in order, appended one at a time as the source does. */
  function ResolveParams(es: seq<string>, sc: Scope): (r: Option<seq<string>>)
    ensures r.Some? ==> |r.value| == |es|
  {
    if es == [] then Some([])
    else
      var before := ResolveParams(es[..|es| - 1], sc);
      var last := ParamOf(es[|es| - 1], sc);
      if before.None? || last.None? then None else Some(before.value + [last.value])
  }

  /** One more element: its resolved type is appended, or the resolution fails. */
  lemma ResolveParamsStep(es: seq<string>, i: nat, sc: Scope)
    requires i < |es|
    ensures ResolveParams(es[..i + 1], sc)
            == if ResolveParams(es[..i], sc).None? || ParamOf(es[i], sc).None? then None
               else Some(ResolveParams(es[..i], sc).value + [ParamOf(es[i], sc).value])
  {
    assert es[..i + 1][..i] == es[..i];
  }

  /** Resolution of the list fails once a prefix of it has failed. */
  lemma {:induction false} ResolveParamsFailurePersists(es: seq<string>, n: nat, sc: Scope)
    requires n <= |es| && ResolveParams(es[..n], sc).None?
    ensures ResolveParams(es, sc).None?
    decreases |es| - n
  {
    if n < |es| {
      assert es[..n + 1][..n] == es[..n];
      ResolveParamsFailurePersists(es, n + 1, sc);
    } else {
      assert es[..n] == es;
    }
  }

  /**
   * The list resolves exactly when every parameter does, and then the k-th resolved type is the k-th
   * parameter's.
   */
  lemma {:induction false} ResolveParamsPointwise(es: seq<string>, sc: Scope)
    ensures ResolveParams(es, sc).Some? <==> forall k :: 0 <= k < |es| ==> ParamOf(es[k], sc).Some?
    ensures ResolveParams(es, sc).Some? ==>
      forall k :: 0 <= k < |es| ==> ResolveParams(es, sc).value[k] == ParamOf(es[k], sc).value
  {
    if es != [] {
      var init := es[..|es| - 1];
      ResolveParamsPointwise(init, sc);
      var before := ResolveParams(init, sc);
      var last := ParamOf(es[|es| - 1], sc);
      if before.Some? && last.Some? {
        var r := before.value + [last.value];
        assert ResolveParams(es, sc) == Some(r);
        forall k | 0 <= k < |es| ensures ParamOf(es[k], sc).Some? && r[k] == ParamOf(es[k], sc).value {
          if k < |init| {
            assert init[k] == es[k];
          }
        }
      } else if before.None? {
        var k :| 0 <= k < |init| && ParamOf(init[k], sc).None?;
        assert es[k] == init[k];
      }
    }
  }

  /** The parameter list with the outer blanks, a leading `(` and a trailing `)` removed. */
  function ParamListInterior(pl: string): (r: string)
    ensures |r| <= |pl|
  {
    var a := Trim(pl);
    var b := if StartsWith(a, "(") then a[1..] else a;
    if EndsWith(b, ")") then b[..|b| - 1] else b
  }

  /** `(x)` has the interior x. */
  lemma InteriorOfParenthesised(x: string)
    ensures ParamListInterior("(" + x + ")") == x
  {
    var pl := "(" + x + ")";
    assert !IsSpace(pl[0]) && !IsSpace(pl[|pl| - 1]);
    TrimmedIsFixpoint(pl);
    assert pl[1..] == x + ")";
    assert (x + ")")[..|x|] == x;
  }

  /**
   * The parameter types: none for a blank list, otherwise one per element of the list, each with its
   * name dropped and resolved.
   */
  function ParameterTypes(paramlist: string, sc: Scope): (r: Option<seq<string>>)
  {
    var p := ParamListInterior(paramlist);
    if Trim(p) == "" then Some([]) else ResolveParams(Elements(p), sc)
  }

  /** `()` has no parameters. */
  lemma NoParameters(sc: Scope)
    ensures ParameterTypes("()", sc) == Some([])
  {
    InteriorOfParenthesised("");
    assert "(" + "" + ")" == "()";
  }

  /** A non-blank list has one parameter type more than it has commas at bracket depth 0. */
  lemma ParameterCount(paramlist: string, sc: Scope)
    requires Trim(ParamListInterior(paramlist)) != ""
    requires ParameterTypes(paramlist, sc).Some?
    ensures |ParameterTypes(paramlist, sc).value| == |TopLevelCommaSet(ParamListInterior(paramlist))| + 1
  {
    ElementsCount(ParamListInterior(paramlist));
  }

  // ---------------------------------------------------------------------------------------------
  // Units, package and imports

  /** The function's unit when it is a unit other than the class's, which is when the source reads it. */
  function OtherUnit(fn: Node, fnAncestors: seq<Parent>, cu: Parent): (r: Option<Parent>)
    ensures r.Some? <==> CompilationUnitOf(fn, fnAncestors).Some? && CompilationUnitOf(fn, fnAncestors).value != cu
    ensures r.Some? ==> r == CompilationUnitOf(fn, fnAncestors)
  {
    var fu := CompilationUnitOf(fn, fnAncestors);
    if fu.Some? && fu.value != cu then fu else None
  }

  /** The class unit's package; when that is empty, the other unit's, if there is one. */
  function PackageFor(cu: Parent, other: Option<Parent>): (r: Option<string>)
    ensures PackageOf(cu.children).None? ==> r.None?
    ensures PackageOf(cu.children).Some? && PackageOf(cu.children).value != "" ==> r == PackageOf(cu.children)
    ensures other.None? ==> r == PackageOf(cu.children)
  {
    var own := PackageOf(cu.children);
    if own.Some? && own.value == "" && other.Some? then PackageOf(other.value.children) else own
  }

  /** The class unit's imports, overwritten by the other unit's, if there is one. */
  function ImportsFor(cu: Parent, other: Option<Parent>): (r: Option<map<string, string>>)
    ensures other.None? ==> r == ImportsOf(cu.children)
  {
    var own := ImportsOf(cu.children);
    if own.None? || other.None? then own
    else
      var more := ImportsOf(other.value.children);
      if more.None? then None else Some(own.value + more.value)
  }

  /**
   * The scope in which the types of the declaration are resolved. `javaLang` is the static table of
   * `java.lang` names, which the instance initialiser has filled before the constructor's body runs
   * (TypeTables.JavaLangTypes()).
   */
  function ScopeFor(fn: Node, fnAncestors: seq<Parent>, classAncestors: seq<Parent>, javaLang: set<string>)
    : (r: Option<Scope>)
    ensures classAncestors == [] ==> r.None?
    ensures r.Some? ==> r.value.javaLang == javaLang
  {
    var cu := ClassUnit(classAncestors);
    if cu.None? then None
    else
      var other := OtherUnit(fn, fnAncestors, cu.value);
      var pkg := PackageFor(cu.value, other);
      var imports := ImportsFor(cu.value, other);
      if pkg.None? || imports.None? then None else Some(Scope(pkg.value, imports.value, javaLang))
  }

  /**
   * The second half of the constructor, once the scope is known: the return type without modifiers and
   * the parameter types, resolved in `sc`; None where the source throws.
   */
  function DeriveIn(fn: Node, classNode: Parent, sig: Signature, sc: Scope): (r: Option<Identity>)
    requires fn.Terminal? && (fn.kind == ConstructorKind || fn.kind == MethodKind)
    ensures r.Some? ==> && (r.value.isConstructor <==> fn.kind == ConstructorKind)
                        && r.value.methodName == sig.name
                        && r.value.className == classNode.name
                        && r.value.classPackage == sc.pkg
                        && r.value.originFeature == fn.feature
  {
    var ret := Resolve(StripModifiers(sig.returnType), sc);
    var params := ParameterTypes(sig.paramlist, sc);
    if ret.None? || params.None? then None
    else Some(Identity(fn.kind == ConstructorKind, sig.name, classNode.name, sc.pkg, params.value, ret.value,
                       fn.feature))
  }

  /**
   * The constructor: the identity of a method or constructor declaration `fn` of the class
   * `classNode`, or None where the source throws; `javaLang` as for ScopeFor.
   */
  function Derive(fn: Node, fnAncestors: seq<Parent>, classNode: Parent, classAncestors: seq<Parent>,
                  sig: Signature, javaLang: set<string>): (r: Option<Identity>)
    requires fn.Terminal? && (fn.kind == ConstructorKind || fn.kind == MethodKind)
    ensures classAncestors == [] ==> r.None?
    ensures r.Some? ==> && (r.value.isConstructor <==> fn.kind == ConstructorKind)
                        && r.value.methodName == sig.name
                        && r.value.className == classNode.name
                        && r.value.originFeature == fn.feature
  {
    var sc := ScopeFor(fn, fnAncestors, classAncestors, javaLang);
    if sc.None? then None else DeriveIn(fn, classNode, sig, sc.value)
  }

  // ---------------------------------------------------------------------------------------------
  // Properties of the derivation

  /** A package declared in the class's own unit is used, whatever the function's unit declares. */
  lemma OwnPackageWins(cu: Parent, other: Option<Parent>, i: nat, p: string)
    requires i < |cu.children| && cu.children[i].kind == PackageKind && cu.children[i].Terminal?
    requires cu.children[i].body == "package " + p + ";" && p != ""
    requires forall j :: 0 <= j < i ==> cu.children[j].kind != PackageKind
    ensures PackageFor(cu, other) == Some(p)
  {
    PackageOfFirstDeclaration(cu.children, i);
    DeclaredPackageRoundTrip(p);
  }

  /** A class unit without a package declaration takes the package of the function's other unit. */
  lemma PackageFallsBack(cu: Parent, o: Parent, i: nat, p: string)
    requires forall j :: 0 <= j < |cu.children| ==> cu.children[j].kind != PackageKind
    requires i < |o.children| && o.children[i].kind == PackageKind && o.children[i].Terminal?
    requires o.children[i].body == "package " + p + ";"
    requires forall j :: 0 <= j < i ==> o.children[j].kind != PackageKind
    ensures PackageFor(cu, Some(o)) == Some(p)
  {
    PackageOfFirstDeclaration(o.children, i);
    DeclaredPackageRoundTrip(p);
  }

  /**
   * With another unit, the merged table has the keys of both; the other unit's entries win and the
   * class unit's fill in the rest.
   */
  lemma ImportsMergeOverrides(cu: Parent, o: Parent)
    requires ImportsFor(cu, Some(o)).Some?
    ensures ImportsOf(cu.children).Some? && ImportsOf(o.children).Some?
    ensures var m := ImportsFor(cu, Some(o)).value;
            var a := ImportsOf(cu.children).value;
            var b := ImportsOf(o.children).value;
            && m.Keys == a.Keys + b.Keys
            && (forall k :: k in b ==> m[k] == b[k])
            && (forall k :: k in a && k !in b ==> m[k] == a[k])
  {
  }

  /**
   * A return type that names, without modifiers, a non-primitive simple name imported by the
   * function's other unit resolves to that unit's import, even when the class's unit imports the name
   * too.
   */
  lemma ReturnTypeUsesMethodUnitImport(fn: Node, fnAncestors: seq<Parent>, classNode: Parent,
                                       classAncestors: seq<Parent>, sig: Signature, javaLang: set<string>,
                                       o: Parent, k: string)
    requires fn.Terminal? && (fn.kind == ConstructorKind || fn.kind == MethodKind)
    requires classAncestors != [] && OtherUnit(fn, fnAncestors, ClassUnit(classAncestors).value) == Some(o)
    requires ImportsOf(o.children).Some? && k in ImportsOf(o.children).value
    requires StripModifiers(sig.returnType) == k && IsSimpleName(k) && k !in PrimitiveTypeNames
    requires Derive(fn, fnAncestors, classNode, classAncestors, sig, javaLang).Some?
    ensures Derive(fn, fnAncestors, classNode, classAncestors, sig, javaLang).value.returnType == ImportsOf(o.children).value[k]
  {
    var sc := ScopeFor(fn, fnAncestors, classAncestors, javaLang).value;
    ImportsMergeOverrides(ClassUnit(classAncestors).value, o);
    SimpleNameSkipsStructuralRules(k);
    SimpleNamePrecedence(k, sc);
  }

  /**
   * Whichever units the table comes from, a key without a leading dot maps to itself, since a dotted
   * import is keyed by its last segment with the dot.
   */
  lemma MergedUndottedKeyMapsToItself(cu: Parent, other: Option<Parent>, t: string)
    requires ImportsFor(cu, other).Some? && t in ImportsFor(cu, other).value
    requires t == [] || t[0] != '.'
    ensures ImportsFor(cu, other).value[t] == t
  {
    if other.None? {
      UndottedKeyMapsToItself(cu.children, t);
    } else {
      ImportsMergeOverrides(cu, other.value);
      if t in ImportsOf(other.value.children).value {
        UndottedKeyMapsToItself(other.value.children, t);
      } else {
        UndottedKeyMapsToItself(cu.children, t);
      }
    }
  }

  /**
   * A name without a leading dot, found in the import table, resolves to itself: it was imported
   * without a package, and no dotted import such as `import java.util.List;` is ever used for it.
   */
  lemma SimpleNameNeverTakesDottedImport(fn: Node, fnAncestors: seq<Parent>, classAncestors: seq<Parent>,
                                         javaLang: set<string>, t: string)
    requires ScopeFor(fn, fnAncestors, classAncestors, javaLang).Some?
    requires !EndsWith(t, "[]") && '<' !in t && IndexOf(t, Implements) == -1 && IndexOf(t, Extends) == -1
    requires t !in PrimitiveTypeNames && (t == [] || t[0] != '.')
    requires t in ScopeFor(fn, fnAncestors, classAncestors, javaLang).value.imports
    ensures Resolve(t, ScopeFor(fn, fnAncestors, classAncestors, javaLang).value) == Some(t)
  {
    var cu := ClassUnit(classAncestors).value;
    var other := OtherUnit(fn, fnAncestors, cu);
    MergedUndottedKeyMapsToItself(cu, other, t);
    SimpleNamePrecedence(t, ScopeFor(fn, fnAncestors, classAncestors, javaLang).value);
  }

  /** The parameter types are the list's elements, each with its name dropped and resolved in the scope. */
  lemma ParametersAreResolvedElements(fn: Node, classNode: Parent, sig: Signature, sc: Scope)
    requires fn.Terminal? && (fn.kind == ConstructorKind || fn.kind == MethodKind)
    requires DeriveIn(fn, classNode, sig, sc).Some?
    requires Trim(ParamListInterior(sig.paramlist)) != ""
    ensures var es := Elements(ParamListInterior(sig.paramlist));
            var ps := DeriveIn(fn, classNode, sig, sc).value.parameterTypes;
            |ps| == |es| && forall k :: 0 <= k < |es| ==> ParamOf(es[k], sc) == Some(ps[k])
  {
    ResolveParamsPointwise(Elements(ParamListInterior(sig.paramlist)), sc);
  }
}
