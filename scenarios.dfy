/**
 * Two worked examples carried through the code as written: a method and a constructor, each declared
 * in a small feature structure tree, with the identity and the native signature that the derivation
 * and the two formatters give them. The shapes the examples share are proved first for any names;
 * the examples then only supply the facts about their own texts.
 */
module Scenarios {
  import opened Options
  import opened Text
  import opened ParamSplit
  import opened TypeTables
  import opened TypeResolution
  import opened SyntaxTree
  import opened MethodIdentity
  import opened NativeTypes
  import opened Formats

  // ---------------------------------------------------------------------------------------------
  // Shapes shared by the examples

  /** A class directly inside a unit: the unit gives the scope its package and imports. */
  lemma ScopeOfClassInUnit(fn: Node, cls: Parent, cu: Parent, javaLang: set<string>)
    requires fn.kind != UnitKind && cls.kind != UnitKind && cu.kind == UnitKind
    requires PackageOf(cu.children).Some? && ImportsOf(cu.children).Some?
    ensures ScopeFor(fn, [cls, cu], [cu], javaLang)
            == Some(Scope(PackageOf(cu.children).value, ImportsOf(cu.children).value, javaLang))
  {
    ClassUnitFinds([cu], 0);
    UnitIndexIsUnique([fn] + [cls, cu], 0, 2);
    assert CompilationUnitOf(fn, [cls, cu]) == Some(cu);
    assert OtherUnit(fn, [cls, cu], cu) == None;
    assert PackageFor(cu, None) == PackageOf(cu.children);
    assert ImportsFor(cu, None) == ImportsOf(cu.children);
  }

  /** Three children of which only the middle one puts an entry: the table holds that entry alone. */
  lemma ImportsOfOneImport(a: Node, b: Node, c: Node, k: string, v: string)
    requires StepOf(a) == Skip && StepOf(b) == Put(k, v) && StepOf(c) == Skip
    ensures ImportsOf([a, b, c]) == Some(map[k := v])
  {
    var ss := Steps([a, b, c]);
    assert ss == [Skip, Put(k, v), Skip];
    assert ss[..2] == [Skip, Put(k, v)];
    assert ss[..2][..1] == [Skip];
    assert ss[..2][..1][..0] == [];
    assert Table([Skip]) == Some(map[]);
    assert map[][k := v] == map[k := v];
    assert Table(ss[..2]) == Some(map[k := v]);
  }

  /** A type text without the letters `p`, `a`, `f` and `y` holds none of the modifier words. */
  lemma NoModifierWord(t: string)
    requires 'p' !in t && 'a' !in t && 'f' !in t && 'y' !in t
    ensures StripModifiers(t) == Trim(t)
  {
    WordAbsent(t, "public", 0);
    WordAbsent(t, "private", 0);
    WordAbsent(t, "static", 2);
    WordAbsent(t, "protected", 0);
    WordAbsent(t, "final", 0);
    WordAbsent(t, "synchronized", 1);
    WordAbsent(t, "native", 1);
    WordAbsent(t, "abstract", 0);
    WordAbsent(t, "transient", 2);
    WordAbsent(t, "strictfp", 6);
    assert forall i :: 0 <= i < |Modifiers| ==> !Contains(t, Modifiers[i]);
  }

  /** A simple name that is neither primitive nor imported goes to `java.lang` or to the package. */
  lemma ResolvedByName(t: string, sc: Scope)
    requires IsSimpleName(t) && t !in PrimitiveTypeNames && t !in sc.imports
    ensures t in sc.javaLang ==> Resolve(t, sc) == Some("java.lang." + t)
    ensures t !in sc.javaLang ==> Resolve(t, sc) == Some(if sc.pkg == "" then t else sc.pkg + "." + t)
  {
    SimpleNameSkipsStructuralRules(t);
    SimpleNamePrecedence(t, sc);
  }

  /** `o<a>` with simple names on both sides resolves to the two resolved names, bracketed the same way. */
  lemma GenericOfSimpleNames(o: string, a: string, sc: Scope)
    requires IsSimpleName(o) && IsTrimmed(o) && IsSimpleName(a) && IsTrimmed(a) && ',' !in a
    requires Resolve(o, sc).Some? && Resolve(a, sc).Some?
    ensures Resolve(o + "<" + a + ">", sc) == Some(Resolve(o, sc).value + "<" + Resolve(a, sc).value + ">")
  {
    TrimmedIsFixpoint(o);
    TrimmedIsFixpoint(a);
    ElementsWithoutComma(a);
    GenericOneArgument(o, a, sc);
  }

  /** A parameter written `T name`: a trimmed type and a name, neither with a separator character. */
  predicate TypedName(ty: string, name: string) {
    && ty != [] && IsTrimmed(ty) && Plain(ty)
    && name != [] && ' ' !in name && Plain(name) && !IsSpace(name[|name| - 1])
  }

  /** The text of a parameter `T name` is trimmed, has no separator, and has the type T. */
  lemma TypedNameParts(ty: string, name: string, sc: Scope)
    requires TypedName(ty, name)
    ensures var e := ty + " " + name;
            IsTrimmed(e) && Plain(e) && ParamOf(e, sc) == Resolve(ty, sc)
  {
    var e := ty + " " + name;
    assert e[0] == ty[0] && e[|e| - 1] == name[|name| - 1];
    assert forall i :: 0 <= i < |e| ==> e[i] == ' ' || e[i] in ty || e[i] in name;
    ParamTypeDropsName(ty, name);
    TrimmedIsFixpoint(ty);
  }

  /** A blank before a trimmed text is dropped by the trim. */
  lemma TrimLeadingBlank(x: string)
    requires x != [] && IsTrimmed(x)
    ensures Trim(" " + x) == x
  {
    var s := " " + x;
    assert SkipSpaces(s, 1) == 1;
    assert SkipSpaces(s, 0) == 1;
    assert SkipSpacesBack(s, 1, |s|) == |s|;
    assert s[1..] == x;
  }

  /** `(T name)`: one parameter, of type T resolved. */
  lemma OneParameterList(ty: string, name: string, sc: Scope)
    requires TypedName(ty, name) && Resolve(ty, sc).Some?
    ensures ParameterTypes("(" + ty + " " + name + ")", sc) == Some([Resolve(ty, sc).value])
  {
    var e := ty + " " + name;
    TypedNameParts(ty, name, sc);
    InteriorOfParenthesised(e);
    assert "(" + ty + " " + name + ")" == "(" + e + ")";
    TrimmedIsFixpoint(e);
    assert ',' !in e;
    ElementsWithoutComma(e);
    OneParameter(e, sc);
  }

  /** `(T1 n1, T2 n2)`: two parameters, of types T1 and T2 resolved, in that order. */
  lemma TwoParameterList(t1: string, n1: string, t2: string, n2: string, sc: Scope)
    requires TypedName(t1, n1) && TypedName(t2, n2) && Resolve(t1, sc).Some? && Resolve(t2, sc).Some?
    ensures ParameterTypes("(" + t1 + " " + n1 + ", " + t2 + " " + n2 + ")", sc)
            == Some([Resolve(t1, sc).value, Resolve(t2, sc).value])
  {
    var e1 := t1 + " " + n1;
    var e2 := t2 + " " + n2;
    var p := e1 + "," + (" " + e2);
    TypedNameParts(t1, n1, sc);
    TypedNameParts(t2, n2, sc);
    TwoParameterText(t1, n1, t2, n2);
    InteriorOfParenthesised(p);
    TwoElements(e1, e2);
    TwoParameters(e1, e2, sc);
  }

  lemma TwoParameterText(t1: string, n1: string, t2: string, n2: string)
    ensures "(" + t1 + " " + n1 + ", " + t2 + " " + n2 + ")" == "(" + ((t1 + " " + n1) + "," + (" " + (t2 + " " + n2))) + ")"
  {
  }

  /** Two trimmed texts without separators, joined by `, `, are two elements. */
  lemma TwoElements(e1: string, e2: string)
    requires e1 != [] && IsTrimmed(e1) && Plain(e1) && e2 != [] && IsTrimmed(e2) && Plain(e2)
    ensures var p := e1 + "," + (" " + e2);
            Elements(p) == [e1, e2] && Trim(p) != ""
  {
    var p := e1 + "," + (" " + e2);
    assert ',' !in " " + e2;
    SplitsInTwo(e1, " " + e2);
    TrimmedIsFixpoint(e1);
    TrimLeadingBlank(e2);
    assert p[0] == e1[0] && p[|p| - 1] == e2[|e2| - 1];
    TrimmedIsFixpoint(p);
  }

  /** A list of one parameter resolves to that parameter's type. */
  lemma OneParameter(e: string, sc: Scope)
    requires ParamOf(e, sc).Some?
    ensures ResolveParams([e], sc) == Some([ParamOf(e, sc).value])
  {
    var es := [e];
    var v := ParamOf(e, sc).value;
    ResolveParamsStep(es, 0, sc);
    assert es[..0] == [] && es[..1] == es;
    assert ResolveParams(es[..0], sc) == Some([]);
    assert ResolveParams(es[..1], sc) == Some([] + [v]);
    assert [] + [v] == [v];
  }

  /** A list of two parameters resolves to their two types. */
  lemma TwoParameters(e1: string, e2: string, sc: Scope)
    requires ParamOf(e1, sc).Some? && ParamOf(e2, sc).Some?
    ensures ResolveParams([e1, e2], sc) == Some([ParamOf(e1, sc).value, ParamOf(e2, sc).value])
  {
    var es := [e1, e2];
    var v1 := ParamOf(e1, sc).value;
    var v2 := ParamOf(e2, sc).value;
    OneParameter(e1, sc);
    ResolveParamsStep(es, 1, sc);
    assert es[..1] == [e1] && es[..2] == es && es[1] == e2;
    assert ResolveParams(es[..1], sc) == Some([v1]);
    assert ResolveParams(es[..2], sc) == Some([v1] + [v2]);
    assert [v1] + [v2] == [v1, v2];
  }

  /** The slashed form of a joined text is the join of the slashed parts. */
  lemma SlashesAppend(x: string, y: string)
    ensures DotsToSlashes(x + y) == DotsToSlashes(x) + DotsToSlashes(y)
  {
    var s := x + y;
    var r := DotsToSlashes(s);
    var rx := DotsToSlashes(x);
    var ry := DotsToSlashes(y);
    forall i | 0 <= i < |s| ensures r[i] == (rx + ry)[i] {
      if i < |x| {
        assert s[i] == x[i] && (rx + ry)[i] == rx[i];
      } else {
        assert s[i] == y[i - |x|] && (rx + ry)[i] == ry[i - |x|];
      }
    }
    assert r == rx + ry;
  }

  /** A text without dots is its own slashed form. */
  lemma SlashesKeepDotless(x: string)
    requires '.' !in x
    ensures DotsToSlashes(x) == x
  {
  }

  /** The dots of a name of three parts become slashes. */
  lemma SlashedThreePartName(a: string, b: string, c: string)
    requires '.' !in a && '.' !in b && '.' !in c
    ensures DotsToSlashes(a + "." + b + "." + c) == a + "/" + b + "/" + c
  {
    SlashesAppend(a + "." + b + ".", c);
    SlashesAppend(a + "." + b, ".");
    SlashesAppend(a + ".", b);
    SlashesAppend(a, ".");
    SlashesKeepDotless(a);
    SlashesKeepDotless(b);
    SlashesKeepDotless(c);
    assert DotsToSlashes(".") == "/";
  }

  /** A class type, with or without type arguments, has the code `L`, its slashed name, `;`. */
  lemma ClassTypeCode(q: string, args: string)
    requires '<' !in q && '[' !in q && q !in PrimitiveJniCodes
    requires args == [] || args[0] == '<'
    ensures JniType(q + args) == "L" + DotsToSlashes(q) + ";"
  {
    var t := q + args;
    if args == [] {
      assert t == q;
    } else {
      FirstOccurrenceFrom(t, '<', 0, |q|);
      assert t[..|q|] == q;
    }
  }

  /** Every primitive name has at most seven characters. */
  lemma LongNameHasNoPrimitiveCode(n: string)
    requires |n| > 7
    ensures n !in PrimitiveJniCodes
  {
    JniCodesCoverExactlyThePrimitives();
  }

  // ---------------------------------------------------------------------------------------------
  // The source's `java.lang` table

  /** The catalogue holds `String`, but neither `List` nor the empty name. */
  lemma CatalogueHoldsStringNotList()
    ensures "String" in JavaLangTypes()
    ensures "List" !in JavaLangTypes() && "" !in JavaLangTypes()
  {
    ShortNameNotInCatalogue("");
    StringInCatalogue();
    ListNotInCatalogue();
  }

  lemma StringInCatalogue()
    ensures "String" in JavaLangTypes()
  {
    assert "String" in LangClasses();
  }

  lemma ListNotInCatalogue()
    ensures "List" !in JavaLangTypes()
  {
    ListNotInInterfaces();
    ListNotInClasses();
    ListNotInEnums();
    ListNotInExceptions();
    ListNotInErrors();
    ListNotInAnnotations();
  }

  lemma ListNotInInterfaces() ensures "List" !in LangInterfaces() {}
  lemma ListNotInClasses() ensures "List" !in LangClasses() {}
  lemma ListNotInEnums() ensures "List" !in LangEnums() {}
  lemma ListNotInExceptions() ensures "List" !in LangExceptions() {}
  lemma ListNotInErrors() ensures "List" !in LangErrors() {}
  lemma ListNotInAnnotations() ensures "List" !in LangAnnotations() {}

  // ---------------------------------------------------------------------------------------------
  // A method: `List<String> bar(int x)` of class `Foo` in package `com.acme`, which imports
  // `java.util.List`, contributed by feature `Base`.

  const BarDecl: Node := Terminal(MethodKind, "bar", "List<String> bar(int x) {}", "Base")
  const BarClass: Parent := NonTerminal("ClassDeclaration", "Foo", [BarDecl])
  const AcmePackage: Node := Terminal(PackageKind, "", "package com.acme;", "Base")
  const ListImport: Node := Terminal(ImportKind, "", "import java.util.List;", "Base")
  const AcmeUnit: Parent := NonTerminal(UnitKind, "Foo.java", [AcmePackage, ListImport, BarClass])
  const BarSig: Signature := Signature("bar", "List<String>", "(int x)")

  /** The imports of the unit: `java.util.List` is keyed `.List`. */
  const AcmeImports: map<string, string> := map[".List" := "java.util.List"]

  /** The scope of the method, with any `java.lang` table. */
  function AcmeScopeWith(javaLang: set<string>): Scope {
    Scope("com.acme", AcmeImports, javaLang)
  }

  /** The method's unit is the class's; it declares `com.acme` and imports `java.util.List`. */
  lemma AcmeScope(javaLang: set<string>)
    ensures ScopeFor(BarDecl, [BarClass, AcmeUnit], [AcmeUnit], javaLang) == Some(AcmeScopeWith(javaLang))
  {
    AcmePackageOf();
    AcmeImportsOf();
    ScopeOfClassInUnit(BarDecl, BarClass, AcmeUnit, javaLang);
  }

  lemma AcmePackageOf()
    ensures PackageOf(AcmeUnit.children) == Some("com.acme")
  {
    PackageOfFirstDeclaration(AcmeUnit.children, 0);
    DeclaredPackageRoundTrip("com.acme");
    AcmePackageText();
  }

  lemma AcmePackageText()
    ensures "package " + "com.acme" + ";" == "package com.acme;"
  {
  }

  lemma AcmeImportsOf()
    ensures ImportsOf(AcmeUnit.children) == Some(AcmeImports)
  {
    ListImportParsed();
    assert StepOf(ListImport) == Put(".List", "java.util.List");
    ImportsOfOneImport(AcmePackage, ListImport, BarClass, ".List", "java.util.List");
  }

  /** The declaration `import java.util.List;` puts `java.util.List` under `.List`. */
  lemma ListImportParsed()
    ensures ParseImport("import java.util.List;") == Some(Entry(".List", "java.util.List"))
  {
    DottedImportKeyKeepsDot("java.util", "List");
    ListImportText();
  }

  lemma ListImportText()
    ensures "java.util" + "." + "List" == "java.util.List"
    ensures "import " + ("java.util" + "." + "List") + ";" == "import java.util.List;"
    ensures "." + "List" == ".List"
  {
  }

  /**
   * `List` is not found under its own name, since the import is keyed `.List`, nor in `java.lang`, so
   * it is taken to be in the package; `String` goes to `java.lang`.
   */
  lemma ListAndStringResolved(javaLang: set<string>)
    requires "String" in javaLang && "List" !in javaLang
    ensures Resolve("List", AcmeScopeWith(javaLang)) == Some("com.acme.List")
    ensures Resolve("String", AcmeScopeWith(javaLang)) == Some("java.lang.String")
  {
    var sc := AcmeScopeWith(javaLang);
    ListAndStringAreSimple();
    ResolvedByName("List", sc);
    ResolvedByName("String", sc);
    ListAndStringText();
  }

  lemma ListAndStringAreSimple()
    ensures IsSimpleName("List") && IsTrimmed("List") && "List" !in PrimitiveTypeNames && "List" !in AcmeImports
    ensures IsSimpleName("String") && IsTrimmed("String") && "String" !in PrimitiveTypeNames
    ensures "String" !in AcmeImports && ',' !in "String"
  {
  }

  lemma ListAndStringText()
    ensures "com.acme" + "." + "List" == "com.acme.List"
    ensures "java.lang." + "String" == "java.lang.String"
  {
  }

  /** The return type `List<String>` carries no modifier and resolves to `com.acme.List<java.lang.String>`. */
  lemma BarReturnType(javaLang: set<string>)
    requires "String" in javaLang && "List" !in javaLang
    ensures Resolve(StripModifiers(BarSig.returnType), AcmeScopeWith(javaLang))
            == Some("com.acme.List<java.lang.String>")
  {
    ListOfStringText();
    ListOfStringResolvedText();
    ListOfStringLetters();
    NoModifierWord("List" + "<" + "String" + ">");
    TrimmedIsFixpoint("List" + "<" + "String" + ">");
    ListAndStringAreSimple();
    ListAndStringResolved(javaLang);
    GenericOfSimpleNames("List", "String", AcmeScopeWith(javaLang));
  }

  lemma ListOfStringText()
    ensures "List" + "<" + "String" + ">" == "List<String>"
  {
  }

  lemma ListOfStringResolvedText()
    ensures "com.acme.List" + "<" + "java.lang.String" + ">" == "com.acme.List<java.lang.String>"
  {
  }

  lemma ListOfStringLetters()
    ensures 'p' !in "List<String>" && 'a' !in "List<String>" && 'f' !in "List<String>" && 'y' !in "List<String>"
    ensures IsTrimmed("List<String>")
  {
  }

  /** `(int x)` has one parameter, of type `int`. */
  lemma IntParameter(sc: Scope)
    ensures ParameterTypes("(int x)", sc) == Some(["int"])
  {
    IntParameterText();
    SimpleNamePrecedence("int", sc);
    OneParameterList("int", "x", sc);
  }

  lemma IntParameterText()
    ensures "(" + "int" + " " + "x" + ")" == "(int x)"
    ensures TypedName("int", "x") && "int" in PrimitiveTypeNames
    ensures !EndsWith("int", "[]") && '<' !in "int" && IndexOf("int", Implements) == -1
    ensures IndexOf("int", Extends) == -1
  {
    SimpleNameSkipsStructuralRules("int");
  }

  /** The method's identity, as the code derives it. */
  const BarIdentity: Identity :=
    Identity(false, "bar", "Foo", "com.acme", ["int"], "com.acme.List<java.lang.String>", "Base")

  lemma BarDerived(javaLang: set<string>)
    requires "String" in javaLang && "List" !in javaLang
    ensures Derive(BarDecl, [BarClass, AcmeUnit], BarClass, [AcmeUnit], BarSig, javaLang) == Some(BarIdentity)
  {
    AcmeScope(javaLang);
    BarDerivedIn(javaLang);
  }

  lemma BarDerivedIn(javaLang: set<string>)
    requires "String" in javaLang && "List" !in javaLang
    ensures DeriveIn(BarDecl, BarClass, BarSig, AcmeScopeWith(javaLang)) == Some(BarIdentity)
  {
    BarReturnType(javaLang);
    IntParameter(AcmeScopeWith(javaLang));
  }

  lemma BarIdentityString()
    ensures IdentityString(BarIdentity) == "com.acme.Foo.bar(int)com.acme.List<java.lang.String>=Base"
  {
    IdentityStringCases(BarIdentity);
    assert JoinSemicolon(["int"]) == "int";
    BarHeadText();
    BarParamsText();
    BarReturnText();
    BarFeatureText();
  }

  lemma BarHeadText()
    ensures "com.acme" + "." + "Foo" + "." + "bar" == "com.acme.Foo.bar"
  {
  }

  lemma BarParamsText()
    ensures "com.acme.Foo.bar" + "(" + "int" + ")" == "com.acme.Foo.bar(int)"
  {
  }

  lemma BarReturnText()
    ensures "com.acme.Foo.bar(int)" + "com.acme.List<java.lang.String>"
            == "com.acme.Foo.bar(int)com.acme.List<java.lang.String>"
  {
  }

  lemma BarFeatureText()
    ensures "com.acme.Foo.bar(int)com.acme.List<java.lang.String>" + "=" + "Base"
            == "com.acme.Foo.bar(int)com.acme.List<java.lang.String>=Base"
  {
  }

  /** `int` has the code `I`. */
  lemma IntCode()
    ensures JniType("int") == "I"
  {
    IndexOfCharFinds("int", '<');
    assert Erased("int") == "int";
  }

  /** The type arguments are cut off and the dots of `com.acme.List` become slashes. */
  lemma ListCode()
    ensures JniType("com.acme.List<java.lang.String>") == "Lcom/acme/List;"
  {
    ListNameText();
    ListArgumentsText();
    ListNameLetters();
    ListCodeText();
    LongNameHasNoPrimitiveCode("com.acme.List");
    ClassTypeCode("com.acme.List", "<java.lang.String>");
    SlashedThreePartName("com", "acme", "List");
  }

  lemma ListNameText()
    ensures "com" + "." + "acme" + "." + "List" == "com.acme.List"
  {
  }

  lemma ListArgumentsText()
    ensures "com.acme.List" + "<java.lang.String>" == "com.acme.List<java.lang.String>"
  {
  }

  lemma ListNameLetters()
    ensures '<' !in "com.acme.List" && '[' !in "com.acme.List" && |"com.acme.List"| > 7
    ensures '.' !in "com" && '.' !in "acme" && '.' !in "List"
  {
  }

  lemma ListCodeText()
    ensures "L" + ("com" + "/" + "acme" + "/" + "List") + ";" == "Lcom/acme/List;"
  {
  }

  lemma BarNativeSignature()
    ensures NativeSignature(BarIdentity) == "com.acme.Foo.bar(I)Lcom/acme/List;=Base"
  {
    NativeSignatureCases(BarIdentity);
    IntCode();
    ListCode();
    assert ["int"][..0] == [];
    assert JniParams(["int"]) == "I";
    BarHeadText();
    BarNativeParamsText();
    BarNativeText();
  }

  lemma BarNativeParamsText()
    ensures "com.acme.Foo.bar" + "(" + "I" + ")" == "com.acme.Foo.bar(I)"
  {
  }

  lemma BarNativeText()
    ensures "com.acme.Foo.bar(I)" + "Lcom/acme/List;" + "=" + "Base" == "com.acme.Foo.bar(I)Lcom/acme/List;=Base"
  {
  }

  /**
   * The method example, with any `java.lang` table that, like the source's (CatalogueHoldsStringNotList),
   * holds `String` and not `List`: the import of `java.util.List` is not used for `List`, which is taken
   * to be in `com.acme`, so the identity is `com.acme.Foo.bar(int)com.acme.List<java.lang.String>=Base`
   * and not `com.acme.Foo.bar(int)java.util.List<java.lang.String>=Base`, which a table keyed by the
   * simple type name, as the comment on `collectImportedTypes` describes it, would give.
   */
  lemma MethodExample(javaLang: set<string>)
    requires "String" in javaLang && "List" !in javaLang
    ensures var id := Derive(BarDecl, [BarClass, AcmeUnit], BarClass, [AcmeUnit], BarSig, javaLang);
            && id.Some?
            && IdentityString(id.value) == "com.acme.Foo.bar(int)com.acme.List<java.lang.String>=Base"
            && NativeSignature(id.value) == "com.acme.Foo.bar(I)Lcom/acme/List;=Base"
  {
    BarDerived(javaLang);
    BarIdentityString();
    BarNativeSignature();
  }

  // ---------------------------------------------------------------------------------------------
  // A constructor: `Foo(int a, String b)` of class `Foo` in the default package, without imports,
  // contributed by feature `Base`.

  const FooCtorDecl: Node := Terminal(ConstructorKind, "Foo", "Foo(int a, String b) {}", "Base")
  const FooClass: Parent := NonTerminal("ClassDeclaration", "Foo", [FooCtorDecl])
  const FooUnit: Parent := NonTerminal(UnitKind, "Foo.java", [FooClass])
  const FooCtorSig: Signature := Signature("Foo", "", "(int a, String b)")

  /** The scope of the constructor, with any `java.lang` table: no package, no imports. */
  function FooScopeWith(javaLang: set<string>): Scope {
    Scope("", map[], javaLang)
  }

  lemma FooScope(javaLang: set<string>)
    ensures ScopeFor(FooCtorDecl, [FooClass, FooUnit], [FooUnit], javaLang) == Some(FooScopeWith(javaLang))
  {
    assert ImportsOf(FooUnit.children) == Some(map[]) by {
      assert Steps([FooClass]) == [Skip];
      assert [Skip][..0] == [];
    }
    ScopeOfClassInUnit(FooCtorDecl, FooClass, FooUnit, javaLang);
  }

  /** A constructor has no return type: the empty text resolves to itself. */
  lemma EmptyReturnType(javaLang: set<string>)
    requires "" !in javaLang
    ensures Resolve(StripModifiers(""), FooScopeWith(javaLang)) == Some("")
  {
    var sc := FooScopeWith(javaLang);
    assert IsTrimmed("");
    NoModifierWord("");
    TrimmedIsFixpoint("");
    IndexOfCharFinds("", '<');
    assert !EndsWith("", "[]");
    assert IndexOf("", Implements) == -1 && IndexOf("", Extends) == -1 by {
      IndexOfFinds("", Implements);
      IndexOfFinds("", Extends);
    }
    SimpleNamePrecedence("", sc);
  }

  /** `(int a, String b)` has the parameters `int` and `java.lang.String`. */
  lemma FooParameters(javaLang: set<string>)
    requires "String" in javaLang
    ensures ParameterTypes("(int a, String b)", FooScopeWith(javaLang)) == Some(["int", "java.lang.String"])
  {
    var sc := FooScopeWith(javaLang);
    FooParametersText();
    IntParameterText();
    SimpleNamePrecedence("int", sc);
    ListAndStringAreSimple();
    ResolvedByName("String", sc);
    ListAndStringText();
    TwoParameterList("int", "a", "String", "b", sc);
  }

  lemma FooParametersText()
    ensures "(" + "int" + " " + "a" + ", " + "String" + " " + "b" + ")" == "(int a, String b)"
    ensures TypedName("int", "a") && TypedName("String", "b")
  {
  }

  /** The constructor's identity, as the code derives it. */
  const FooCtorIdentity: Identity := Identity(true, "Foo", "Foo", "", ["int", "java.lang.String"], "", "Base")

  lemma FooCtorDerived(javaLang: set<string>)
    requires "String" in javaLang && "" !in javaLang
    ensures Derive(FooCtorDecl, [FooClass, FooUnit], FooClass, [FooUnit], FooCtorSig, javaLang)
            == Some(FooCtorIdentity)
  {
    FooScope(javaLang);
    EmptyReturnType(javaLang);
    FooParameters(javaLang);
  }

  lemma FooCtorIdentityString()
    ensures IdentityString(FooCtorIdentity) == "Foo(int;java.lang.String)=Base"
  {
    IdentityStringCases(FooCtorIdentity);
    var ps := ["int", "java.lang.String"];
    assert ps[..1] == ["int"];
    assert JoinSemicolon(ps) == "int" + ";" + "java.lang.String";
    FooCtorParamsText();
    FooCtorHeadText();
    FooCtorFeatureText();
  }

  lemma FooCtorParamsText()
    ensures "int" + ";" + "java.lang.String" == "int;java.lang.String"
  {
  }

  lemma FooCtorHeadText()
    ensures "" + "Foo" + "(" + "int;java.lang.String" + ")" == "Foo(int;java.lang.String)"
  {
  }

  lemma FooCtorFeatureText()
    ensures "Foo(int;java.lang.String)" + "=" + "Base" == "Foo(int;java.lang.String)=Base"
  {
  }

  /** `java.lang.String` has the code `Ljava/lang/String;`. */
  lemma StringCode()
    ensures JniType("java.lang.String") == "Ljava/lang/String;"
  {
    StringNameText();
    StringNameLetters();
    StringCodeText();
    LongNameHasNoPrimitiveCode("java.lang.String");
    ClassTypeCode("java.lang.String", "");
    SlashedThreePartName("java", "lang", "String");
  }

  lemma StringNameText()
    ensures "java" + "." + "lang" + "." + "String" == "java.lang.String"
    ensures "java.lang.String" + "" == "java.lang.String"
  {
  }

  lemma StringNameLetters()
    ensures '<' !in "java.lang.String" && '[' !in "java.lang.String" && |"java.lang.String"| > 7
    ensures '.' !in "java" && '.' !in "lang" && '.' !in "String"
  {
  }

  lemma StringCodeText()
    ensures "L" + ("java" + "/" + "lang" + "/" + "String") + ";" == "Ljava/lang/String;"
  {
  }

  lemma FooCtorNativeSignature()
    ensures NativeSignature(FooCtorIdentity) == "Foo.<init>(ILjava/lang/String;)=Base"
  {
    NativeSignatureCases(FooCtorIdentity);
    var ps := ["int", "java.lang.String"];
    IntCode();
    StringCode();
    assert ps[..1] == ["int"] && ps[..1][..0] == [];
    assert JniParams(ps) == "" + "I" + "Ljava/lang/String;";
    FooCtorNativeHeadText();
    FooCtorCodesText();
    FooCtorNativeParamsText();
    FooCtorNativeFeatureText();
  }

  lemma FooCtorNativeHeadText()
    ensures "" + "Foo" + "." + "<init>" == "Foo.<init>"
  {
  }

  lemma FooCtorCodesText()
    ensures "" + "I" + "Ljava/lang/String;" == "ILjava/lang/String;"
  {
  }

  lemma FooCtorNativeParamsText()
    ensures "Foo.<init>" + "(" + "ILjava/lang/String;" + ")" == "Foo.<init>(ILjava/lang/String;)"
  {
  }

  lemma FooCtorNativeFeatureText()
    ensures "Foo.<init>(ILjava/lang/String;)" + "=" + "Base" == "Foo.<init>(ILjava/lang/String;)=Base"
  {
  }

  /**
   * The constructor example: with any `java.lang` table that, like the source's
   * (CatalogueHoldsStringNotList), holds `String` and not the empty name, a constructor in the default
   * package has the identity `Foo(int;java.lang.String)=Base` and the native signature
   * `Foo.<init>(ILjava/lang/String;)=Base`.
   */
  lemma ConstructorExample(javaLang: set<string>)
    requires "String" in javaLang && "" !in javaLang
    ensures var id := Derive(FooCtorDecl, [FooClass, FooUnit], FooClass, [FooUnit], FooCtorSig, javaLang);
            && id.Some?
            && IdentityString(id.value) == "Foo(int;java.lang.String)=Base"
            && NativeSignature(id.value) == "Foo.<init>(ILjava/lang/String;)=Base"
  {
    FooCtorDerived(javaLang);
    FooCtorIdentityString();
    FooCtorNativeSignature();
  }
}
