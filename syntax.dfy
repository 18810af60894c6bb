/**
 * The feature structure tree, as far as method identifiers read it. A node has a kind ("MethodDecl",
 * "CompilationUnit", "ImportDeclaration", ...) and a name; a terminal carries the source text of its
 * declaration and the feature it came from, a non-terminal its children in order. Parent links are
 * given as the sequence of ancestors of a node, nearest first; a parent is always a non-terminal.
 */
module SyntaxTree {
  import opened Options
  import opened Text

  datatype Node =
    | Terminal(kind: string, name: string, body: string, feature: string)
    | NonTerminal(kind: string, name: string, children: seq<Node>)

  /** The nodes that can be a parent. */
  type Parent = n: Node | n.NonTerminal? witness NonTerminal("", "", [])

  const UnitKind := "CompilationUnit"
  const PackageKind := "PackageDeclaration"
  const ImportKind := "ImportDeclaration"

  // ---------------------------------------------------------------------------------------------
  // Ascent to the compilation unit

  /**
   * Where an upward walk from path[k] stops: at the first compilation unit, or at the last node of
   * the path when there is none.
   */
  function UnitIndexFrom(path: seq<Node>, k: nat): (r: nat)
    requires k < |path|
    ensures k <= r < |path|
    ensures path[r].kind == UnitKind || r == |path| - 1
    ensures forall j :: k <= j < r ==> path[j].kind != UnitKind
    decreases |path| - k
  {
    if path[k].kind == UnitKind || k == |path| - 1 then k else UnitIndexFrom(path, k + 1)
  }

  /** Any index with the two stopping properties is the one the walk stops at. */
  lemma {:induction false} UnitIndexIsUnique(path: seq<Node>, k: nat, i: nat)
    requires k <= i < |path|
    requires path[i].kind == UnitKind || i == |path| - 1
    requires forall j :: k <= j < i ==> path[j].kind != UnitKind
    ensures UnitIndexFrom(path, k) == i
    decreases |path| - k
  {
    if k < i {
      UnitIndexIsUnique(path, k + 1, i);
    }
  }

  /**
   * The walk in the constructor and in `getCompilationUnit`: move to the parent while the current
   * node is not a compilation unit and has a parent.
   */
  method Ascend(path: seq<Node>) returns (i: nat)
    requires path != []
    ensures i == UnitIndexFrom(path, 0)
  {
    i := 0;
    while path[i].kind != UnitKind && i < |path| - 1
      invariant i < |path|
      invariant UnitIndexFrom(path, i) == UnitIndexFrom(path, 0)
    {
      i := i + 1;
    }
  }

  /**
   * The unit the constructor reads for the class: the walk starts at the class's parent and may end
   * at a root that is not a compilation unit. A class without a parent makes the source dereference
   * null, which is None here.
   */
  function ClassUnit(classAncestors: seq<Parent>): (r: Option<Parent>)
    ensures r.None? <==> classAncestors == []
  {
    if classAncestors == [] then None else Some(classAncestors[UnitIndexFrom(classAncestors, 0)])
  }

  /**
   * `getCompilationUnit`: the nearest compilation unit at or above the node, when it is a
   * non-terminal; None when the walk reaches the root without meeting one.
   */
  function CompilationUnitOf(n: Node, ancestors: seq<Parent>): (r: Option<Parent>)
    ensures r.Some? ==> r.value.kind == UnitKind
  {
    var path := [n] + ancestors;
    var k := UnitIndexFrom(path, 0);
    if path[k].kind == UnitKind && path[k].NonTerminal? then Some(path[k]) else None
  }

  method GetCompilationUnit(n: Node, ancestors: seq<Parent>) returns (r: Option<Parent>)
    ensures r == CompilationUnitOf(n, ancestors)
  {
    var path := [n] + ancestors;
    var k := Ascend(path);
    if path[k].kind == UnitKind && path[k].NonTerminal? {
      r := Some(path[k]);
    } else {
      r := None;
    }
  }

  /**
   * What `getCompilationUnit` finds: with no compilation unit on the way up there is none; otherwise
   * the nearest one, unless that one is a terminal.
   */
  lemma CompilationUnitOfFinds(n: Node, ancestors: seq<Parent>)
    ensures var path := [n] + ancestors;
      (forall j :: 0 <= j < |path| ==> path[j].kind != UnitKind) ==> CompilationUnitOf(n, ancestors) == None
    ensures var path := [n] + ancestors;
      forall i :: 0 <= i < |path| && path[i].kind == UnitKind && (forall j :: 0 <= j < i ==> path[j].kind != UnitKind)
        ==> CompilationUnitOf(n, ancestors) == if path[i].NonTerminal? then Some(path[i]) else None
  {
    var path := [n] + ancestors;
    forall i | 0 <= i < |path| && path[i].kind == UnitKind && (forall j :: 0 <= j < i ==> path[j].kind != UnitKind)
      ensures CompilationUnitOf(n, ancestors) == if path[i].NonTerminal? then Some(path[i]) else None
    {
      UnitIndexIsUnique(path, 0, i);
    }
  }

  /** The class's unit is the nearest compilation unit above the class, when there is one. */
  lemma ClassUnitFinds(classAncestors: seq<Parent>, i: nat)
    requires i < |classAncestors| && classAncestors[i].kind == UnitKind
    requires forall j :: 0 <= j < i ==> classAncestors[j].kind != UnitKind
    ensures ClassUnit(classAncestors) == Some(classAncestors[i])
  {
    UnitIndexIsUnique(classAncestors, 0, i);
  }

  // ---------------------------------------------------------------------------------------------
  // Package declaration

  /** The package named by a declaration's text: a leading `package ` and a trailing `;` removed. */
  function DeclaredPackage(body: string): (r: string)
    ensures !StartsWith(body, "package ") && !EndsWith(body, ";") ==> r == body
  {
    var a := if StartsWith(body, "package ") then body[|"package "|..] else body;
    if EndsWith(a, ";") then a[..|a| - 1] else a
  }

  /** A declaration written `package p;` names p. */
  lemma DeclaredPackageRoundTrip(p: string)
    ensures DeclaredPackage("package " + p + ";") == p
  {
    var body := "package " + p + ";";
    assert body[..|"package "|] == "package ";
    assert body[|"package "|..] == p + ";";
    assert (p + ";")[|p + ";"| - 1..] == ";";
    assert (p + ";")[..|p|] == p;
  }

  /** The index of the first package declaration among the children from k on, or -1. */
  function FirstPackageFrom(cs: seq<Node>, k: nat): (r: int)
    requires k <= |cs|
    ensures r == -1 || (k <= r < |cs| && cs[r].kind == PackageKind)
    ensures forall j :: k <= j < |cs| && (r == -1 || j < r) ==> cs[j].kind != PackageKind
    decreases |cs| - k
  {
    if k == |cs| then -1
    else if cs[k].kind == PackageKind then k
    else FirstPackageFrom(cs, k + 1)
  }

  /**
   * `getPackageNameFromCompilationUnit`: the package of the first package declaration among the
   * children, "" when there is none. A declaration node that is not a terminal fails the source's
   * cast, which is None here.
   */
  function PackageOf(cs: seq<Node>): (r: Option<string>)
    ensures (forall j :: 0 <= j < |cs| ==> cs[j].kind != PackageKind) ==> r == Some("")
  {
    var i := FirstPackageFrom(cs, 0);
    if i == -1 then Some("")
    else if cs[i].NonTerminal? then None
    else Some(DeclaredPackage(cs[i].body))
  }

  method PackageName(unit: Parent) returns (r: Option<string>)
    ensures r == PackageOf(unit.children)
  {
    var cs := unit.children;
    var name := "";
    var i := 0;
    while i < |cs|
      invariant i <= |cs|
      invariant FirstPackageFrom(cs, i) == FirstPackageFrom(cs, 0)
    {
      if cs[i].kind == PackageKind {
        if cs[i].NonTerminal? {
          return None;
        }
        name := cs[i].body;
        if StartsWith(name, "package ") {
          name := name[|"package "|..];
        }
        if EndsWith(name, ";") {
          name := name[..|name| - 1];
        }
        return Some(name);
      }
      i := i + 1;
    }
    return Some("");
  }

  /** The package is that of the first declaration, whatever declarations follow it. */
  lemma {:induction false} PackageOfFirstDeclaration(cs: seq<Node>, i: nat)
    requires i < |cs| && cs[i].kind == PackageKind && cs[i].Terminal?
    requires forall j :: 0 <= j < i ==> cs[j].kind != PackageKind
    ensures PackageOf(cs) == Some(DeclaredPackage(cs[i].body))
  {
    FirstPackageAt(cs, 0, i);
  }

  lemma {:induction false} FirstPackageAt(cs: seq<Node>, k: nat, i: nat)
    requires k <= i < |cs| && cs[i].kind == PackageKind
    requires forall j :: k <= j < i ==> cs[j].kind != PackageKind
    ensures FirstPackageFrom(cs, k) == i
    decreases |cs| - k
  {
    if k < i {
      FirstPackageAt(cs, k + 1, i);
    }
  }

  // ---------------------------------------------------------------------------------------------
  // Import declarations

  /** What one import declaration adds to the import table. */
  datatype ImportEntry = Wildcard | Entry(key: string, value: string)

  /**
   * One import declaration of `collectImportedTypes`: the text is trimmed, the first `import ` is
   * removed and the last character (the `;`) dropped. A wildcard import adds nothing; a name without a
   * dot maps to itself; a dotted name is keyed by its text from the last dot on, dot included. An
   * empty remainder makes the source take a substring ending before it starts, which is None here.
   */
  function ParseImport(body: string): (r: Option<ImportEntry>)
    ensures r.Some? && r.value.Entry? ==> EndsWith(r.value.value, r.value.key)
    ensures r.Some? && r.value.Entry? && r.value.key != r.value.value ==>
      |r.value.key| > 0 && r.value.key[0] == '.' && '.' !in r.value.key[1..]
  {
    var s := RemoveFirst(Trim(body), "import ");
    if s == [] then None
    else
      var q := s[..|s| - 1];
      if EndsWith(q, "*") then Some(Wildcard)
      else if '.' !in q then Some(Entry(q, q))
      else
        var d := LastIndexOfChar(q, '.');
        assert q[d..] == q[|q| - |q[d..]|..];
        assert q[d..][1..] == q[d + 1..];
        Some(Entry(q[d..], q))
  }

  /** `import q;` round trip: the entry is read back from the name written in the declaration. */
  lemma ParseImportRoundTrip(q: string)
    ensures ParseImport("import " + q + ";") ==
      Some(if EndsWith(q, "*") then Wildcard
           else if '.' !in q then Entry(q, q)
           else Entry(q[LastIndexOfChar(q, '.')..], q))
  {
    var body := "import " + q + ";";
    assert IsTrimmed(body) by {
      assert body[0] == 'i' && body[|body| - 1] == ';';
    }
    TrimmedIsFixpoint(body);
    assert OccursAt(body, "import ", 0) by {
      assert body[..7] == "import ";
    }
    IndexOfFinds(body, "import ");
    assert RemoveFirst(body, "import ") == q + ";" by {
      assert body[7..] == q + ";";
    }
    assert (q + ";")[..|q|] == q;
  }

  /**
   * `import p.n;` with a last segment n is keyed by `.n`, dot included, and not by the simple name n
   * that a type would use.
   */
  lemma DottedImportKeyKeepsDot(p: string, n: string)
    requires '.' !in n && n != [] && n[|n| - 1] != '*'
    ensures var q := p + "." + n; ParseImport("import " + q + ";") == Some(Entry("." + n, q))
  {
    var q := p + "." + n;
    DottedNameParts(p, n);
    ParseImportRoundTrip(q);
  }

  /** The last dot of `p.n` is the one before n, and the name does not end in `*`. */
  lemma DottedNameParts(p: string, n: string)
    requires '.' !in n && n != [] && n[|n| - 1] != '*'
    ensures var q := p + "." + n;
            && !EndsWith(q, "*") && '.' in q && LastIndexOfChar(q, '.') == |p| && q[|p|..] == "." + n
  {
    var q := p + "." + n;
    assert q[|p|] == '.';
    assert q[|p| + 1..] == n;
    assert forall k :: |p| < k < |q| ==> q[k] != '.' by {
      forall k | |p| < k < |q| ensures q[k] != '.' {
        assert q[k] == q[|p| + 1..][k - |p| - 1];
      }
    }
    assert q[|q| - 1] == n[|n| - 1];
  }

  /** What one child of a compilation unit does to the import table. */
  datatype Step = Skip | Put(key: string, value: string) | Fail

  /**
   * A child that is not an import declaration, and a wildcard import, leave the table alone; an
   * import of a name puts its entry; a declaration the source fails on (a blank one, or a node that
   * is not a terminal and fails the source's cast) fails the table.
   */
  function StepOf(c: Node): (r: Step)
    ensures c.kind != ImportKind ==> r == Skip
    ensures r.Put? ==> c.Terminal? && ParseImport(c.body) == Some(Entry(r.key, r.value))
  {
    if c.kind != ImportKind then Skip
    else if c.NonTerminal? then Fail
    else match ParseImport(c.body)
      case None => Fail
      case Some(Wildcard) => Skip
      case Some(Entry(k, v)) => Put(k, v)
  }

  function Steps(cs: seq<Node>): (r: seq<Step>)
    ensures |r| == |cs|
    ensures forall i :: 0 <= i < |cs| ==> r[i] == StepOf(cs[i])
  {
    if cs == [] then [] else [StepOf(cs[0])] + Steps(cs[1..])
  }

  /** The table the steps build, in order, a later entry overwriting an earlier one with its key. */
  function Table(ss: seq<Step>): (r: Option<map<string, string>>)
  {
    if ss == [] then Some(map[])
    else
      var before := Table(ss[..|ss| - 1]);
      match ss[|ss| - 1]
        case Fail => None
        case Skip => before
        case Put(k, v) => if before.None? then None else Some(before.value[k := v])
  }

  /** `collectImportedTypes` on the children of a unit. */
  function ImportsOf(cs: seq<Node>): Option<map<string, string>>
  {
    Table(Steps(cs))
  }

  method CollectImportedTypes(unit: Parent) returns (r: Option<map<string, string>>)
    ensures r == ImportsOf(unit.children)
  {
    var cs := unit.children;
    ghost var ss := Steps(cs);
    var table: map<string, string> := map[];
    var i := 0;
    while i < |cs|
      invariant i <= |cs|
      invariant Table(ss[..i]) == Some(table)
    {
      assert ss[..i + 1][..i] == ss[..i];
      if cs[i].kind == ImportKind {
        if cs[i].NonTerminal? {
          TableFailurePersists(ss, i + 1);
          return None;
        }
        var e := ParseImport(cs[i].body);
        match e {
          case None =>
            TableFailurePersists(ss, i + 1);
            return None;
          case Some(Wildcard) =>
          case Some(Entry(k, v)) =>
            table := table[k := v];
        }
      }
      i := i + 1;
    }
    assert ss[..|cs|] == ss;
    r := Some(table);
  }

  /** Once the table has failed it stays failed. */
  lemma {:induction false} TableFailurePersists(ss: seq<Step>, n: nat)
    requires n <= |ss| && Table(ss[..n]) == None
    ensures Table(ss) == None
    decreases |ss| - n
  {
    if n < |ss| {
      assert ss[..n + 1][..n] == ss[..n];
      TableFailurePersists(ss, n + 1);
    } else {
      assert ss[..n] == ss;
    }
  }

  /** The table fails exactly when one of the steps fails. */
  lemma {:induction false} TableFailsExactly(ss: seq<Step>)
    ensures Table(ss).None? <==> Fail in ss
  {
    if ss != [] {
      var init := ss[..|ss| - 1];
      assert init + [ss[|ss| - 1]] == ss;
      TableFailsExactly(init);
    }
  }

  /** The step puts an entry for k. */
  predicate PutsKey(s: Step, k: string) {
    s.Put? && s.key == k
  }

  /** Step i puts k to v, and no later step puts k. */
  predicate LastPut(ss: seq<Step>, i: int, k: string, v: string)
    requires 0 <= i < |ss|
  {
    ss[i] == Put(k, v) && forall j :: i < j < |ss| ==> !PutsKey(ss[j], k)
  }

  /**
   * Last write wins: when step i puts k to v and no later step puts k, a table that has not failed
   * maps k to v.
   */
  lemma {:induction false} TableLastWriteWins(ss: seq<Step>, i: nat, k: string, v: string)
    requires Table(ss).Some?
    requires i < |ss| && LastPut(ss, i, k, v)
    ensures k in Table(ss).value && Table(ss).value[k] == v
  {
    var n := |ss| - 1;
    var init := ss[..n];
    if i < n {
      assert init[i] == ss[i];
      assert forall j :: i < j < |init| ==> init[j] == ss[j];
      TableLastWriteWins(init, i, k, v);
    }
  }

  /**
   * A key that does not start with a dot comes from an import of a name without a dot, so it maps to
   * itself: no dotted import is ever found under a simple name.
   */
  lemma UndottedKeyMapsToItself(cs: seq<Node>, t: string)
    requires ImportsOf(cs).Some? && t in ImportsOf(cs).value
    requires t == [] || t[0] != '.'
    ensures ImportsOf(cs).value[t] == t
  {
    var ss := Steps(cs);
    TableKeysComeFromPuts(ss, t);
    var v := Table(ss).value[t];
    var i :| 0 <= i < |ss| && LastPut(ss, i, t, v);
    assert StepOf(cs[i]) == Put(t, v);
    var e := ParseImport(cs[i].body);
    assert e == Some(Entry(t, v));
  }

  /** Only puts write: every key of the table comes from the last step that puts it. */
  lemma {:induction false} TableKeysComeFromPuts(ss: seq<Step>, k: string)
    requires Table(ss).Some? && k in Table(ss).value
    ensures exists i :: 0 <= i < |ss| && LastPut(ss, i, k, Table(ss).value[k])
  {
    var n := |ss| - 1;
    var init := ss[..n];
    var v := Table(ss).value[k];
    if PutsKey(ss[n], k) {
      assert LastPut(ss, n, k, v);
    } else {
      TableKeysComeFromPuts(init, k);
      var i :| 0 <= i < |init| && LastPut(init, i, k, v);
      assert ss[i] == Put(k, v);
      assert forall j :: i < j < n ==> ss[j] == init[j];
      assert LastPut(ss, i, k, v);
    }
  }
}
