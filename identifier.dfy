/**
 * The `MethodIdentifier` object: its fields, the constructor that fills them from a declaration step
 * by step, the two formatters and the deep copy. Each method is proved against the functions of
 * MethodIdentity and Formats.
 */
module Identifiers {
  import opened Options
  import opened Text
  import opened ParamSplit
  import opened TypeTables
  import opened TypeResolution
  import opened SyntaxTree
  import opened MethodIdentity
  import opened NativeTypes
  import opened Formats

  /** A growable list of strings, the identifier's `ArrayList` of parameter types. */
  class StringList {
    var items: seq<string>

    constructor ()
      ensures items == []
    {
      items := [];
    }

    /** A new list with the same items, as the copying `ArrayList` constructor makes. */
    constructor Copy(other: StringList)
      ensures items == other.items
    {
      items := other.items;
    }

    method Add(x: string)
      modifies this
      ensures items == old(items) + [x]
    {
      items := items + [x];
    }
  }

  class MethodIdentifier {
    var isConstructor: bool
    var methodName: string
    var className: string
    var classPackage: string
    var parameterTypes: StringList
    var returnType: string
    var originFeature: string

    /** The identifier's fields as a value. */
    function State(): Identity
      reads this, parameterTypes
    {
      Identity(isConstructor, methodName, className, classPackage, parameterTypes.items, returnType, originFeature)
    }

    /** The private no-argument constructor: every field has its initial value. */
    constructor Empty()
      ensures State() == Identity(false, "", "", "", [], "", "")
      ensures fresh(parameterTypes)
    {
      isConstructor := false;
      methodName := "";
      className := "";
      classPackage := "";
      parameterTypes := new StringList();
      returnType := "";
      originFeature := "";
    }

    /** The fields of a new identifier, given their values. */
    constructor Init(isConstructor: bool, methodName: string, className: string, classPackage: string,
                     parameterTypes: StringList, returnType: string, originFeature: string)
      ensures this.parameterTypes == parameterTypes
      ensures State() == Identity(isConstructor, methodName, className, classPackage, parameterTypes.items,
                                  returnType, originFeature)
    {
      this.isConstructor := isConstructor;
      this.methodName := methodName;
      this.className := className;
      this.classPackage := classPackage;
      this.parameterTypes := parameterTypes;
      this.returnType := returnType;
      this.originFeature := originFeature;
    }

    /**
     * The public constructor, for the declaration `fn` of the class `classNode`: null where the source
     * throws, otherwise a new identifier whose fields are the derived identity. `javaLang` is the
     * static table of `java.lang` names; the scope, the return type and the parameter list are worked
     * out first and the fields written last, which no caller can tell apart from the source's order.
     */
    static method FromDeclaration(fn: Node, fnAncestors: seq<Parent>, classNode: Parent,
                                  classAncestors: seq<Parent>, sig: Signature, javaLang: set<string>)
      returns (mi: MethodIdentifier?)
      requires fn.Terminal? && (fn.kind == ConstructorKind || fn.kind == MethodKind)
      ensures mi == null <==> Derive(fn, fnAncestors, classNode, classAncestors, sig, javaLang).None?
      ensures mi != null ==> && fresh(mi) && fresh(mi.parameterTypes)
                             && mi.State() == Derive(fn, fnAncestors, classNode, classAncestors, sig, javaLang).value
    {
      var sc := ScopeOf(fn, fnAncestors, classAncestors, javaLang);
      if sc.None? {
        return null;
      }
      mi := FromScope(fn, classNode, sig, sc.value);
    }

    /** The constructor once the scope is known: the return type, then the parameter list, then the fields. */
    static method FromScope(fn: Node, classNode: Parent, sig: Signature, sc: Scope) returns (mi: MethodIdentifier?)
      requires fn.Terminal? && (fn.kind == ConstructorKind || fn.kind == MethodKind)
      ensures mi == null <==> DeriveIn(fn, classNode, sig, sc).None?
      ensures mi != null ==> && fresh(mi) && fresh(mi.parameterTypes)
                             && mi.State() == DeriveIn(fn, classNode, sig, sc).value
    {
      var ret := Resolve(StripModifiers(sig.returnType), sc);
      if ret.None? {
        assert DeriveIn(fn, classNode, sig, sc).None?;
        return null;
      }
      var list := new StringList();
      var ok := AppendParameterTypes(list, sig.paramlist, sc);
      if !ok {
        assert DeriveIn(fn, classNode, sig, sc).None?;
        return null;
      }
      ghost var id := Identity(fn.kind == ConstructorKind, sig.name, classNode.name, sc.pkg, list.items, ret.value,
                               fn.feature);
      assert DeriveIn(fn, classNode, sig, sc) == Some(id);
      mi := new MethodIdentifier.Init(fn.kind == ConstructorKind, sig.name, classNode.name, sc.pkg,
                                      list, ret.value, fn.feature);
    }

    /** The constructor as the source calls it, with the source's own `java.lang` table. */
    static method Create(fn: Node, fnAncestors: seq<Parent>, classNode: Parent, classAncestors: seq<Parent>,
                         sig: Signature)
      returns (mi: MethodIdentifier?)
      requires fn.Terminal? && (fn.kind == ConstructorKind || fn.kind == MethodKind)
      ensures mi == null <==> Derive(fn, fnAncestors, classNode, classAncestors, sig, JavaLangTypes()).None?
      ensures mi != null ==> && fresh(mi) && fresh(mi.parameterTypes)
                             && mi.State() == Derive(fn, fnAncestors, classNode, classAncestors, sig, JavaLangTypes()).value
    {
      mi := FromDeclaration(fn, fnAncestors, classNode, classAncestors, sig, JavaLangTypes());
    }

    /** `toString`: the parameter types joined in a loop that tells the first one apart. */
    method ToString() returns (r: string)
      ensures r == IdentityString(State())
    {
      var ps := parameterTypes.items;
      var parameters := "";
      var first := true;
      for i := 0 to |ps|
        invariant first <==> i == 0
        invariant parameters == JoinSemicolon(ps[..i])
      {
        JoinSemicolonStep(ps, i);
        if first {
          parameters := ps[i];
          first := false;
        } else {
          parameters := parameters + ";" + ps[i];
        }
      }
      assert ps[..|ps|] == ps;
      IdentityStringCases(State());
      if isConstructor {
        r := PackagePrefix(classPackage) + className + "(" + parameters + ")" + "=" + originFeature;
      } else {
        r := PackagePrefix(classPackage) + className + "." + methodName + "(" + parameters + ")" + returnType + "=" + originFeature;
      }
    }

    /** `toJavaNativeSignatureWithFeature`: the parameters' codes appended one by one. */
    method ToJavaNativeSignatureWithFeature() returns (r: string)
      ensures r == NativeSignature(State())
    {
      var prefix := PackagePrefix(classPackage) + className + "." + (if isConstructor then "<init>" else methodName);
      var ps := parameterTypes.items;
      var params := "";
      for i := 0 to |ps|
        invariant params == JniParams(ps[..i])
      {
        JniParamsStep(ps, i);
        params := params + JniType(ps[i]);
      }
      assert ps[..|ps|] == ps;
      NativeSignatureCases(State());
      if isConstructor {
        r := prefix + "(" + params + ")" + "=" + originFeature;
      } else {
        var ret := JniType(returnType);
        r := prefix + "(" + params + ")" + ret + "=" + originFeature;
      }
    }

    /** `deepClone`: a new identifier with the same fields and its own copy of the parameter list. */
    method DeepClone() returns (c: MethodIdentifier)
      ensures fresh(c) && fresh(c.parameterTypes)
      ensures c.State() == State()
    {
      c := new MethodIdentifier.Empty();
      c.isConstructor := isConstructor;
      c.methodName := methodName;
      c.className := className;
      c.classPackage := classPackage;
      c.parameterTypes := new StringList.Copy(parameterTypes);
      c.returnType := returnType;
      c.originFeature := originFeature;
    }
  }

  /**
   * The first half of the constructor: the class's compilation unit, found by walking up from the
   * class; its package, or the function unit's when it has none; and the imports of both units.
   */
  method ScopeOf(fn: Node, fnAncestors: seq<Parent>, classAncestors: seq<Parent>, javaLang: set<string>)
    returns (sc: Option<Scope>)
    ensures sc == ScopeFor(fn, fnAncestors, classAncestors, javaLang)
  {
    if classAncestors == [] {
      return None;
    }
    var k := Ascend(classAncestors);
    var cu := classAncestors[k];
    assert ClassUnit(classAncestors) == Some(cu);
    var functionUnit := GetCompilationUnit(fn, fnAncestors);
    var other := if functionUnit.Some? && functionUnit.value != cu then functionUnit else None;
    assert other == OtherUnit(fn, fnAncestors, cu);

    var pkg := PackageName(cu);
    if pkg.Some? && pkg.value == "" && other.Some? {
      pkg := PackageName(other.value);
    }
    assert pkg == PackageFor(cu, other);
    if pkg.None? {
      return None;
    }

    var imported := CollectImportedTypes(cu);
    if imported.Some? && other.Some? {
      var more := CollectImportedTypes(other.value);
      imported := if more.None? then None else Some(imported.value + more.value);
    }
    assert imported == ImportsFor(cu, other);
    if imported.None? {
      return None;
    }
    sc := Some(Scope(pkg.value, imported.value, javaLang));
  }

  /**
   * The second half of the constructor: the parameter list without its parentheses, split at its
   * top-level commas, each element's type resolved and appended to `list`.
   */
  method AppendParameterTypes(list: StringList, paramlist: string, sc: Scope) returns (ok: bool)
    requires list.items == []
    modifies list
    ensures ok <==> ParameterTypes(paramlist, sc).Some?
    ensures ok ==> list.items == ParameterTypes(paramlist, sc).value
  {
    var p := Trim(paramlist);
    if StartsWith(p, "(") {
      p := p[1..];
    }
    if EndsWith(p, ")") {
      p := p[..|p| - 1];
    }
    assert p == ParamListInterior(paramlist);
    if Trim(p) == "" {
      return true;
    }
    var parameters := ElementsFromParamList(p);
    ok := AppendResolved(list, parameters, sc);
  }

  /** The loop over the list's elements: each one's type, without the name, resolved and appended. */
  method AppendResolved(list: StringList, parameters: seq<string>, sc: Scope) returns (ok: bool)
    requires list.items == []
    modifies list
    ensures ok <==> ResolveParams(parameters, sc).Some?
    ensures ok ==> list.items == ResolveParams(parameters, sc).value
  {
    var i := 0;
    while i < |parameters|
      invariant i <= |parameters|
      invariant ResolveParams(parameters[..i], sc) == Some(list.items)
    {
      ResolveParamsStep(parameters, i, sc);
      var param := parameters[i];
      var blank := LastIndexOfChar(param, ' ');
      if blank < 0 {
        assert ParamOf(param, sc).None?;
        ResolveParamsFailurePersists(parameters, i + 1, sc);
        return false;
      }
      var paramType := Resolve(Trim(param[..blank]), sc);
      assert ParamOf(param, sc) == paramType;
      if paramType.None? {
        ResolveParamsFailurePersists(parameters, i + 1, sc);
        return false;
      }
      list.Add(paramType.value);
      i := i + 1;
    }
    assert parameters[..|parameters|] == parameters;
    return true;
  }

  /** Appending a parameter type to a clone's list leaves the original identifier as it was. */
  method AppendToClone(mi: MethodIdentifier, t: string) returns (c: MethodIdentifier)
    ensures mi.State() == old(mi.State())
    ensures c.State() == mi.State().(parameterTypes := mi.State().parameterTypes + [t])
  {
    c := mi.DeepClone();
    c.parameterTypes.Add(t);
  }
}
