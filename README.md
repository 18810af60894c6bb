# MethodIdentifier: method identities of FeatureHouse's method-to-feature mapping

FeatureHouse composes Java programs from features. While it composes, it records which feature
contributed each method or constructor, and for that it needs a textual identity of the method.
`composer.methodToFeatureMapping.MethodIdentifier` derives that identity from a node of the feature
structure tree (FST). The node is a method or constructor declaration, placed under its class and under
the compilation unit of its file.

The identity holds seven fields:
- whether the node is a constructor;
- the method name;
- the class name;
- the class's package;
- the fully qualified parameter types;
- the fully qualified return type;
- the feature the declaration came from.

It is printed in two forms:
- `toString`: `[pkg.]Class.name(T1;T2)Ret=Feature`, or `[pkg.]Class(T1;T2)=Feature` for a constructor;
- `toJavaNativeSignatureWithFeature`: a Java Native Interface (JNI) style signature, where types are
  written as codes such as `I` or `Ljava/lang/String;`.

The model has one module per part of the class:

| module | file | what it holds |
|---|---|---|
| `Text` | text.dfy | the `java.lang.String` operations the class uses: `trim`, `indexOf`, `lastIndexOf`, `replaceAll` on a literal word, `replaceFirst` and `replace('.', '/')`, each with its search facts |
| `ParamSplit` | splitter.dfy | `getElementsFromParamList`: the bracket-aware splitter, as the imperative loop of the source, proved against a recursive definition of the elements |
| `TypeTables` | tables.dfy | the primitive names, the `java.lang` catalogue, and the JNI codes of the primitives |
| `TypeResolution` | resolve.dfy | `resolveImportedTypeName`: array, generic, `implements`/`extends`, primitive, import, `java.lang` and package rules, in the source's order |
| `SyntaxTree` | syntax.dfy | FST nodes, the ascent to the compilation unit, the package declaration, and the import table |
| `MethodIdentity` | derive.dfy | the `Identity` value and `Derive`: what the constructor computes from a node, its class and the parsed signature |
| `NativeTypes` | jni.dfy | `transformTypeToJNI` and the decoding of its codes |
| `Formats` | formats.dfy | the two printed forms of an identity |
| `Identifiers` | identifier.dfy | the class `MethodIdentifier`: its fields, its list of parameter types, and its methods with their loops |
| `Scenarios` | scenarios.dfy | a method and a constructor example carried end to end, derived from FST nodes |

The class's fields are a `class MethodIdentifier` in Dafny. The parameter types are a `StringList`
object that the constructor appends to one by one and that `deepClone` copies. Each method is proved
against a function of the fields:
- `State()` reads the fields as an `Identity` value;
- the constructor ends in the state `Derive` computes;
- `ToString` returns `IdentityString(State())`;
- `ToJavaNativeSignatureWithFeature` returns `NativeSignature(State())`;
- `DeepClone` returns a fresh object with the same state, which no later change to the original reaches.

The properties are then proved about those functions:
- the splitter keeps bracketed commas inside one element;
- arrays resolve dimension by dimension;
- the resolver's rules have their documented precedence;
- the printed identity gives back its feature and its parameter list;
- the parameter codes of the JNI form split back into one code per parameter;
- a plain type decodes back from its code.

### The resolution scope

The resolver reads three things besides the type text: the package, the import table, and the static
`java.lang` catalogue. They are gathered in a `Scope` value, and the catalogue is a field of it.
`Identifiers.MethodIdentifier.Create` passes the source's own catalogue. `TypeResolution.CatalogueFacts`
and `Scenarios.CatalogueHoldsStringNotList` state the facts about that catalogue that the examples need.
The two example lemmas hold for every catalogue that contains `String` but neither `List` nor the empty
name, so the source's catalogue is one such table.

### Where the code departs from its own comments

The model follows the code. In these places the code does something other than what the comments in
`MethodIdentifier.java` say it does.

- **The import key keeps its dot.** The comment on `collectImportedTypes` (lines 216-217) says the
  table is keyed by the simple type name. The code takes the key from the position of the last dot
  onward (line 231), so `import java.util.List;` is entered under `.List`. A simple type name never
  starts with a dot, so it never matches such a key, and the type `List` resolves into the class's own
  package.
  - `SyntaxTree.DottedImportKeyKeepsDot` and `Scenarios.ListImportParsed` state the key.
  - `MethodIdentity.SimpleNameNeverTakesDottedImport` states that a simple name is only ever mapped to
    itself by the table.
  - The method `List<String> bar(int x)` of class `com.acme.Foo`, whose unit imports `java.util.List`,
    therefore gets `com.acme.Foo.bar(int)com.acme.List<java.lang.String>=Base` and
    `com.acme.Foo.bar(I)Lcom/acme/List;=Base` (`Scenarios.MethodExample`). A table keyed by the simple
    name would have given `java.util.List` in both.
  - Undotted imports are entered under themselves and work as the comment says
    (`MethodIdentity.ReturnTypeUsesMethodUnitImport`).
- **A comma inside brackets still moves the segment start.** The comment on `getElementsFromParamList`
  (lines 327-329) says that `Bar,Bla<T extends Throwable>` splits into `Bar` and
  `Bla<T extends Throwable>`. That example has no comma inside the brackets, and it holds
  (`ParamSplit.DocumentedExample`). But the code moves the start of the next segment at every comma,
  including one inside `<…>` (line 349). A list `a,o<x,y>` of plain parts therefore splits into
  `[a, y>]`: the second element loses `o<x,`. For example, `Bar,Bla<X,Y>` splits into `["Bar", "Y>"]`
  (`ParamSplit.NestedCommaMovesSegmentStart`).
- **Generic arguments are not joined.** The comment at lines 282-283 says that in
  `Foo<Bar,Bla<T extends Throwable>>` each of `Foo`, `Bar`, `Bla` and `Throwable` is to be resolved,
  so every argument should survive. The join assigns `", " + tp` instead of appending it (line 296).
  With two or more arguments, the first of them non-empty, the result is `Outer<, Last>`
  (`TypeResolution.GenericKeepsLastArgument`). A single argument is kept as it is
  (`TypeResolution.GenericOneArgument`).
- **Arrays of any dimension get one `[`.** The comment at line 450 says an array type is a `[`
  followed by the type of its elements, and the elements of `int[][]` are `int[]`. But
  `transformTypeToJNI` removes every `[]` pair and adds a single `[` (lines 451-452), so `int[][]`
  becomes `[I`, not `[[I` (`NativeTypes.ArrayTypes`).
- **The catalogue holds a stray entry.** The comment at line 39 says the `java.lang` catalogue was
  copied from that package's summary page. One entry is the page's table heading
  `Error Summary  Error \tDescription` (a blank, then a tab, before `Description`; line 124). It is
  kept, because no type name contains blanks.

## Model

| member | source | states |
|---|---|---|
| `Text.Trim` | fstcomp/composer/methodToFeatureMapping/MethodIdentifier.java:199 | trimming never lengthens the text |
| `Text.TrimIsTrimmedInfix` | fstcomp/composer/methodToFeatureMapping/MethodIdentifier.java:325 | the trimmed text is an infix with no blank at either end, and only blanks were cut off |
| `Text.TrimIdempotent` | fstcomp/composer/methodToFeatureMapping/MethodIdentifier.java:279 | trimming twice is trimming once, as the resolver's repeated `trim` calls rely on |
| `Text.IndexOfCharFinds` | fstcomp/composer/methodToFeatureMapping/MethodIdentifier.java:284 | `indexOf('<')` is -1 exactly when there is no `<`, and no `<` comes before the position it returns |
| `Text.LastIndexOfChar` | fstcomp/composer/methodToFeatureMapping/MethodIdentifier.java:231 | `lastIndexOf('.')` is -1 exactly when there is no dot; otherwise it finds a dot with no dot after it |
| `Text.IndexOfFinds` | fstcomp/composer/methodToFeatureMapping/MethodIdentifier.java:300 | `indexOf(" implements ")` finds the first occurrence, and -1 exactly when there is none |
| `Text.RemoveAll` | fstcomp/composer/methodToFeatureMapping/MethodIdentifier.java:195-198 | removing a word never lengthens the text and leaves text without the word unchanged |
| `Text.RemoveAllAtFirstOccurrence` | fstcomp/composer/methodToFeatureMapping/MethodIdentifier.java:195-198 | removing every occurrence of a word keeps the text before its first occurrence, drops that occurrence and goes on removing in the rest, as `replaceAll` scans left to right |
| `Text.TrimIgnoresLeadingSpace` | fstcomp/composer/methodToFeatureMapping/MethodIdentifier.java:198 | a leading blank makes no difference to the trimmed text |
| `Text.RemoveFirst` | fstcomp/composer/methodToFeatureMapping/MethodIdentifier.java:224 | removing the first occurrence shortens the text by the word's length, or leaves it as it was |
| `Text.DotsToSlashes` | fstcomp/composer/methodToFeatureMapping/MethodIdentifier.java:457 | every dot becomes a slash and every other character stays in place |
| `Text.SlashesRoundTrip` | fstcomp/composer/methodToFeatureMapping/MethodIdentifier.java:457 | for a name without slashes, turning the slashes back into dots restores it |
| `ParamSplit.ElementsFromParamList` | fstcomp/composer/methodToFeatureMapping/MethodIdentifier.java:336-357 | the depth-counting loop returns exactly the elements of the recursive definition |
| `ParamSplit.ScanStep` | fstcomp/composer/methodToFeatureMapping/MethodIdentifier.java:340-352 | one character moves the depth by its bracket, moves the segment start after any comma, and closes a segment only at a depth-0 comma |
| `ParamSplit.AfterLastComma` | fstcomp/composer/methodToFeatureMapping/MethodIdentifier.java:349 | the segment start is just after a comma, or 0 |
| `ParamSplit.ClosedSegmentsAreTrimmed` | fstcomp/composer/methodToFeatureMapping/MethodIdentifier.java:344-348 | every closed element is trimmed, no longer than the list, and ends at a top-level comma |
| `ParamSplit.ElementsAreTrimmedInfixes` | fstcomp/composer/methodToFeatureMapping/MethodIdentifier.java:323-325 | every element is trimmed and no longer than the list |
| `ParamSplit.EveryTopLevelCommaClosesAnElement` | fstcomp/composer/methodToFeatureMapping/MethodIdentifier.java:344-348 | the segment before every top-level comma is among the elements |
| `ParamSplit.ClosedSegmentCount` | fstcomp/composer/methodToFeatureMapping/MethodIdentifier.java:344-348 | one element is closed per top-level comma |
| `ParamSplit.ElementsCount` | fstcomp/composer/methodToFeatureMapping/MethodIdentifier.java:336-357 | a list has one more element than it has top-level commas |
| `ParamSplit.ElementsWithoutComma` | fstcomp/composer/methodToFeatureMapping/MethodIdentifier.java:353-355 | a list without commas is one trimmed element |
| `ParamSplit.EmptyListHasOneEmptyElement` | fstcomp/composer/methodToFeatureMapping/MethodIdentifier.java:354-355 | the empty list still yields the last segment, an empty element |
| `ParamSplit.SplitsInTwo` | fstcomp/composer/methodToFeatureMapping/MethodIdentifier.java:344-355 | a bracket-free part, a comma, and a comma-free rest split into the two trimmed parts |
| `ParamSplit.SplitAt` | fstcomp/composer/methodToFeatureMapping/MethodIdentifier.java:344-355 | a list whose only top-level comma follows bracket-free text splits there into two trimmed parts |
| `ParamSplit.NestedCommaAt` | fstcomp/composer/methodToFeatureMapping/MethodIdentifier.java:341-355 | with a comma inside one bracket pair, the second element starts after that inner comma |
| `ParamSplit.NestedCommaMovesSegmentStart` | fstcomp/composer/methodToFeatureMapping/MethodIdentifier.java:349 | `a,o<x,y>` splits into `a` and `y>`, because every comma moves the segment start |
| `ParamSplit.DocumentedExample` | fstcomp/composer/methodToFeatureMapping/MethodIdentifier.java:327-329 | `Bar,Bla<T extends Throwable>` splits into `Bar` and `Bla<T extends Throwable>` |
| `TypeTables.JniCodesCoverExactlyThePrimitives` | fstcomp/composer/methodToFeatureMapping/MethodIdentifier.java:408-419 | the JNI code table has exactly the primitive names as keys, each with a one-letter code |
| `TypeTables.ShortNameNotInCatalogue` | fstcomp/composer/methodToFeatureMapping/MethodIdentifier.java:37-154 | no name shorter than three characters, such as a type variable, is in the `java.lang` catalogue |
| `TypeResolution.ResolveAllPointwise` | fstcomp/composer/methodToFeatureMapping/MethodIdentifier.java:288-290 | the type arguments resolve exactly when each one does, each to its own resolution, in order |
| `TypeResolution.JoinKeepsOnlyLast` | fstcomp/composer/methodToFeatureMapping/MethodIdentifier.java:291-297 | the join yields the last argument alone, or `", "` and the last argument once any earlier one was non-empty |
| `TypeResolution.JoinFirstNonEmpty` | fstcomp/composer/methodToFeatureMapping/MethodIdentifier.java:292-297 | with a non-empty first argument, the join is `", "` and the last argument |
| `TypeResolution.ArraySuffix` | fstcomp/composer/methodToFeatureMapping/MethodIdentifier.java:278-280 | a type ending in `[]` resolves to its trimmed inner type's resolution with `[]` appended |
| `TypeResolution.ArrayDimensions` | fstcomp/composer/methodToFeatureMapping/MethodIdentifier.java:278-280 | a type with n dimensions resolves to its base type's resolution with the n dimensions appended, or fails with it |
| `TypeResolution.SimpleNameSkipsStructuralRules` | fstcomp/composer/methodToFeatureMapping/MethodIdentifier.java:278-308 | a name without blanks or brackets takes none of the array, generic or bound rules |
| `TypeResolution.SimpleNamePrecedence` | fstcomp/composer/methodToFeatureMapping/MethodIdentifier.java:309-320 | a name outside the structural rules resolves by the first of primitive, import, `java.lang`, default package, own package that applies |
| `TypeResolution.NoAngleBracketNeverFails` | fstcomp/composer/methodToFeatureMapping/MethodIdentifier.java:278-320 | a type without `<` always resolves, so every failure of the resolver needs a `<` in the type |
| `TypeResolution.ArrayCaseResolves` | fstcomp/composer/methodToFeatureMapping/MethodIdentifier.java:278-280 | an array type without `<` always resolves |
| `TypeResolution.BoundCaseResolves` | fstcomp/composer/methodToFeatureMapping/MethodIdentifier.java:299-308 | a bound type without `<` always resolves |
| `TypeResolution.OpenBracketAtEndFails` | fstcomp/composer/methodToFeatureMapping/MethodIdentifier.java:286 | a type whose first `<` is its last character fails, where the source's `substring` throws |
| `TypeResolution.GenericRule` | fstcomp/composer/methodToFeatureMapping/MethodIdentifier.java:281-298 | `O<A>` resolves to the outer resolution and the join of the arguments' resolutions, and fails when any part fails |
| `TypeResolution.GenericDispatch` | fstcomp/composer/methodToFeatureMapping/MethodIdentifier.java:281-284 | a type with `<` and no trailing `[]` takes the generic rule at its first `<` |
| `TypeResolution.GenericOneArgument` | fstcomp/composer/methodToFeatureMapping/MethodIdentifier.java:281-298 | a generic with one argument resolves to `Outer<Arg>` with both parts resolved |
| `TypeResolution.GenericSeveralArguments` | fstcomp/composer/methodToFeatureMapping/MethodIdentifier.java:288-290 | a generic with several arguments resolves exactly when its outer type and every argument resolve |
| `TypeResolution.GenericKeepsLastArgument` | fstcomp/composer/methodToFeatureMapping/MethodIdentifier.java:291-298 | with several arguments, the first non-empty, the result is `Outer<, Last>` |
| `TypeResolution.BoundDispatch` | fstcomp/composer/methodToFeatureMapping/MethodIdentifier.java:299-308 | a type outside the array and generic rules takes ` implements ` before ` extends ` |
| `TypeResolution.BoundSides` | fstcomp/composer/methodToFeatureMapping/MethodIdentifier.java:300-303 | a bound type resolves to its two resolved sides around the keyword, or fails with either side |
| `TypeResolution.BoundRule` | fstcomp/composer/methodToFeatureMapping/MethodIdentifier.java:299-308 | `L implements R` and `L extends R` of simple names resolve side by side |
| `TypeResolution.BoundExample` | fstcomp/composer/methodToFeatureMapping/MethodIdentifier.java:282-283 | in package `p`, `T extends Throwable` resolves to `p.T extends java.lang.Throwable` |
| `TypeResolution.ExampleVariable` | fstcomp/composer/methodToFeatureMapping/MethodIdentifier.java:318-319 | an unknown simple name is taken into the class's package |
| `TypeResolution.ExampleCatalogueName` | fstcomp/composer/methodToFeatureMapping/MethodIdentifier.java:313-314 | a catalogue name that is not imported resolves into `java.lang` |
| `TypeResolution.CatalogueFacts` | fstcomp/composer/methodToFeatureMapping/MethodIdentifier.java:37-154 | `Throwable` is in the catalogue and `T` is not |
| `SyntaxTree.UnitIndexFrom` | fstcomp/composer/methodToFeatureMapping/MethodIdentifier.java:259-261 | the ascent stops at the first compilation unit, or at the root |
| `SyntaxTree.UnitIndexIsUnique` | fstcomp/composer/methodToFeatureMapping/MethodIdentifier.java:259-261 | the ascent stops at the first position that is a unit or the root, and nowhere else |
| `SyntaxTree.Ascend` | fstcomp/composer/methodToFeatureMapping/MethodIdentifier.java:259-261 | the `while` loop over the parents stops where the recursive ascent does |
| `SyntaxTree.ClassUnit` | fstcomp/composer/methodToFeatureMapping/MethodIdentifier.java:173-176 | the class's unit is missing exactly when the class has no parent |
| `SyntaxTree.ClassUnitFinds` | fstcomp/composer/methodToFeatureMapping/MethodIdentifier.java:173-176 | the class's unit is its nearest compilation-unit ancestor |
| `SyntaxTree.CompilationUnitOf` | fstcomp/composer/methodToFeatureMapping/MethodIdentifier.java:257-265 | the unit found is a compilation unit |
| `SyntaxTree.GetCompilationUnit` | fstcomp/composer/methodToFeatureMapping/MethodIdentifier.java:257-265 | the loop returns the unit the recursive definition finds, or none |
| `SyntaxTree.CompilationUnitOfFinds` | fstcomp/composer/methodToFeatureMapping/MethodIdentifier.java:257-265 | with no unit on the path there is none; otherwise the first unit, if it is a non-terminal |
| `SyntaxTree.DeclaredPackage` | fstcomp/composer/methodToFeatureMapping/MethodIdentifier.java:245-249 | a body without the `package ` prefix and the `;` suffix is taken as it is |
| `SyntaxTree.DeclaredPackageRoundTrip` | fstcomp/composer/methodToFeatureMapping/MethodIdentifier.java:246-249 | `package p;` gives back `p` |
| `SyntaxTree.FirstPackageFrom` | fstcomp/composer/methodToFeatureMapping/MethodIdentifier.java:243-251 | the search finds the first package declaration among the children, or none |
| `SyntaxTree.PackageOf` | fstcomp/composer/methodToFeatureMapping/MethodIdentifier.java:240-254 | a unit without a package declaration has the empty package |
| `SyntaxTree.PackageName` | fstcomp/composer/methodToFeatureMapping/MethodIdentifier.java:240-254 | the loop with its `break` returns the package of the first declaration |
| `SyntaxTree.PackageOfFirstDeclaration` | fstcomp/composer/methodToFeatureMapping/MethodIdentifier.java:243-251 | the first package declaration decides the package; later ones are ignored |
| `SyntaxTree.ParseImport` | fstcomp/composer/methodToFeatureMapping/MethodIdentifier.java:222-233 | an entry's value ends with its key, and a key other than the value starts with a dot and has no other dot |
| `SyntaxTree.ParseImportRoundTrip` | fstcomp/composer/methodToFeatureMapping/MethodIdentifier.java:224-233 | `import q;` is a wildcard, an entry under itself, or an entry under the text from its last dot |
| `SyntaxTree.DottedImportKeyKeepsDot` | fstcomp/composer/methodToFeatureMapping/MethodIdentifier.java:230-232 | `import p.n;` is entered under the key `.n` |
| `SyntaxTree.StepOf` | fstcomp/composer/methodToFeatureMapping/MethodIdentifier.java:221-234 | only import declarations write to the table, and what they write is their parsed entry |
| `SyntaxTree.Steps` | fstcomp/composer/methodToFeatureMapping/MethodIdentifier.java:221-234 | one step per child, in order |
| `SyntaxTree.CollectImportedTypes` | fstcomp/composer/methodToFeatureMapping/MethodIdentifier.java:219-237 | the loop over the children builds the table the step-by-step definition gives |
| `SyntaxTree.TableFailurePersists` | fstcomp/composer/methodToFeatureMapping/MethodIdentifier.java:221-235 | once an import cannot be read, the collection fails whatever follows |
| `SyntaxTree.TableFailsExactly` | fstcomp/composer/methodToFeatureMapping/MethodIdentifier.java:221-235 | the collection fails exactly when some import cannot be read |
| `SyntaxTree.TableLastWriteWins` | fstcomp/composer/methodToFeatureMapping/MethodIdentifier.java:229-232 | a key maps to the value of the last import written under it |
| `SyntaxTree.UndottedKeyMapsToItself` | fstcomp/composer/methodToFeatureMapping/MethodIdentifier.java:228-229 | a key that does not start with a dot maps to itself |
| `SyntaxTree.TableKeysComeFromPuts` | fstcomp/composer/methodToFeatureMapping/MethodIdentifier.java:221-235 | every key of the table was written by some import, and its value by the last one |
| `MethodIdentity.RemoveWords` | fstcomp/composer/methodToFeatureMapping/MethodIdentifier.java:195-198 | removing the modifier words never lengthens the text and leaves text without them unchanged |
| `MethodIdentity.StripModifiers` | fstcomp/composer/methodToFeatureMapping/MethodIdentifier.java:195-198 | a return type without modifier words is only trimmed |
| `MethodIdentity.ModifiersApart` | fstcomp/composer/methodToFeatureMapping/MethodIdentifier.java:195-198 | no modifier word contains a blank, and none occurs inside another |
| `MethodIdentity.LeadingModifierStripped` | fstcomp/composer/methodToFeatureMapping/MethodIdentifier.java:195-198 | a return type made of one modifier word, a blank and a text without modifier words strips to that text, trimmed |
| `MethodIdentity.ModifiersBeforeTypeRemoved` | fstcomp/composer/methodToFeatureMapping/MethodIdentifier.java:195-199 | `public static int` becomes `int` |
| `MethodIdentity.ModifierInsideNameRemoved` | fstcomp/composer/methodToFeatureMapping/MethodIdentifier.java:195-199 | a modifier word inside a name is removed too: `x.finaly.T` becomes `x.y.T` |
| `MethodIdentity.ParamType` | fstcomp/composer/methodToFeatureMapping/MethodIdentifier.java:209 | a parameter without a blank has no type, where the source's `substring` throws |
| `MethodIdentity.ParamTypeDropsName` | fstcomp/composer/methodToFeatureMapping/MethodIdentifier.java:208-209 | `T name` gives the trimmed type `T` |
| `MethodIdentity.ResolveParams` | fstcomp/composer/methodToFeatureMapping/MethodIdentifier.java:206-211 | resolved parameters are as many as the elements |
| `MethodIdentity.ResolveParamsStep` | fstcomp/composer/methodToFeatureMapping/MethodIdentifier.java:207-211 | one more element appends its resolved type, or fails |
| `MethodIdentity.ResolveParamsFailurePersists` | fstcomp/composer/methodToFeatureMapping/MethodIdentifier.java:207-211 | once a parameter fails, the whole list fails |
| `MethodIdentity.ResolveParamsPointwise` | fstcomp/composer/methodToFeatureMapping/MethodIdentifier.java:207-211 | the list resolves exactly when each parameter does, each to its own type, in order |
| `MethodIdentity.ParamListInterior` | fstcomp/composer/methodToFeatureMapping/MethodIdentifier.java:201-203 | cutting the parentheses never lengthens the list |
| `MethodIdentity.InteriorOfParenthesised` | fstcomp/composer/methodToFeatureMapping/MethodIdentifier.java:201-203 | `(x)` gives back `x` |
| `MethodIdentity.NoParameters` | fstcomp/composer/methodToFeatureMapping/MethodIdentifier.java:205 | `()` gives no parameters |
| `MethodIdentity.ParameterCount` | fstcomp/composer/methodToFeatureMapping/MethodIdentifier.java:205-212 | a non-blank list gives one parameter per top-level comma, plus one |
| `MethodIdentity.OtherUnit` | fstcomp/composer/methodToFeatureMapping/MethodIdentifier.java:180-181 | the method's own unit is consulted exactly when it exists and differs from the class's |
| `MethodIdentity.PackageFor` | fstcomp/composer/methodToFeatureMapping/MethodIdentifier.java:177-184 | the class unit's non-empty package wins, and without another unit it is the package |
| `MethodIdentity.ImportsFor` | fstcomp/composer/methodToFeatureMapping/MethodIdentifier.java:186-192 | without another unit, the imports are the class unit's |
| `MethodIdentity.ScopeFor` | fstcomp/composer/methodToFeatureMapping/MethodIdentifier.java:169-192 | a class without a parent has no scope, and the scope carries the given catalogue |
| `MethodIdentity.DeriveIn` | fstcomp/composer/methodToFeatureMapping/MethodIdentifier.java:163-213 | the identity marks constructors, and takes its name from the signature, its class and package from the scope, its feature from the node |
| `MethodIdentity.Derive` | fstcomp/composer/methodToFeatureMapping/MethodIdentifier.java:160-214 | a class without a parent gives no identity; otherwise the identity carries the node's kind, name, class and feature |
| `MethodIdentity.OwnPackageWins` | fstcomp/composer/methodToFeatureMapping/MethodIdentifier.java:177-178 | a non-empty package of the class's unit is the package |
| `MethodIdentity.PackageFallsBack` | fstcomp/composer/methodToFeatureMapping/MethodIdentifier.java:178-184 | without a package in the class's unit, the method unit's package is taken |
| `MethodIdentity.ImportsMergeOverrides` | fstcomp/composer/methodToFeatureMapping/MethodIdentifier.java:189-192 | the merged table has both units' keys, and the method unit's entries override the class unit's |
| `MethodIdentity.ReturnTypeUsesMethodUnitImport` | fstcomp/composer/methodToFeatureMapping/MethodIdentifier.java:189-200 | a simple return type imported in the method's own unit resolves through that import |
| `MethodIdentity.MergedUndottedKeyMapsToItself` | fstcomp/composer/methodToFeatureMapping/MethodIdentifier.java:186-192 | in the merged table, a key that does not start with a dot maps to itself |
| `MethodIdentity.SimpleNameNeverTakesDottedImport` | fstcomp/composer/methodToFeatureMapping/MethodIdentifier.java:228-232 | a simple name that is a key of the table resolves to itself: no dotted import is ever taken for it |
| `MethodIdentity.ParametersAreResolvedElements` | fstcomp/composer/methodToFeatureMapping/MethodIdentifier.java:205-211 | the identity's parameter types are the resolved elements of the parameter list, one per element, in order |
| `NativeTypes.SkipRegexSpaces` | fstcomp/composer/methodToFeatureMapping/MethodIdentifier.java:451 | the blanks inside a `[ ]` pair are skipped, and only those |
| `NativeTypes.PairAt` | fstcomp/composer/methodToFeatureMapping/MethodIdentifier.java:451 | a match is a `[`, blanks and a `]` at the front |
| `NativeTypes.RemoveBracketPairs` | fstcomp/composer/methodToFeatureMapping/MethodIdentifier.java:451 | removing the pairs never lengthens the type |
| `NativeTypes.Erased` | fstcomp/composer/methodToFeatureMapping/MethodIdentifier.java:448 | everything from the first `<` is dropped, and a type without `<` is kept |
| `NativeTypes.ElementCode` | fstcomp/composer/methodToFeatureMapping/MethodIdentifier.java:454-458 | a type code is never empty |
| `NativeTypes.JniType` | fstcomp/composer/methodToFeatureMapping/MethodIdentifier.java:444-460 | a type code is never empty |
| `NativeTypes.NoBracketNoPairs` | fstcomp/composer/methodToFeatureMapping/MethodIdentifier.java:449-451 | a type without `[` has nothing removed |
| `NativeTypes.DimensionsRemoved` | fstcomp/composer/methodToFeatureMapping/MethodIdentifier.java:451 | all the `[]` pairs after a base type are removed, and only they |
| `NativeTypes.ArrayTypes` | fstcomp/composer/methodToFeatureMapping/MethodIdentifier.java:449-453 | an array of any dimension gets one `[` before its element code |
| `NativeTypes.TypeArgumentsErased` | fstcomp/composer/methodToFeatureMapping/MethodIdentifier.java:447-448 | type arguments do not change the code |
| `NativeTypes.PrimitiveCodesDecode` | fstcomp/composer/methodToFeatureMapping/MethodIdentifier.java:408-419 | each primitive code is one letter and decodes back to its primitive |
| `NativeTypes.DecodeRoundTrip` | fstcomp/composer/methodToFeatureMapping/MethodIdentifier.java:444-460 | a plain type decodes back from its code |
| `NativeTypes.JniTypeInjective` | fstcomp/composer/methodToFeatureMapping/MethodIdentifier.java:444-460 | two plain types with the same code are the same type |
| `NativeTypes.TypeCodeSelfDelimiting` | fstcomp/composer/methodToFeatureMapping/MethodIdentifier.java:454-458 | a code can be read off the front of any text that follows it |
| `NativeTypes.JniParamsConcatenatesCodes` | fstcomp/composer/methodToFeatureMapping/MethodIdentifier.java:433-436 | the parameter text is the concatenation of the parameters' codes |
| `NativeTypes.SplitConcat` | fstcomp/composer/methodToFeatureMapping/MethodIdentifier.java:433-436 | concatenated self-delimiting codes split back one by one |
| `NativeTypes.SplitCodesOfParams` | fstcomp/composer/methodToFeatureMapping/MethodIdentifier.java:433-436 | the parameter text splits back into the parameters' codes |
| `NativeTypes.ParamCodesRoundTrip` | fstcomp/composer/methodToFeatureMapping/MethodIdentifier.java:433-436 | one code per parameter, in order, and a plain parameter type decodes back from its code |
| `Formats.PackagePrefix` | fstcomp/composer/methodToFeatureMapping/MethodIdentifier.java:389 | the empty package gives no prefix; any other gives the package and a dot |
| `Formats.SplitJoinRoundTrip` | fstcomp/composer/methodToFeatureMapping/MethodIdentifier.java:381-387 | `;`-joined parameters without `;` split back into the list |
| `Formats.JoinSemicolonStep` | fstcomp/composer/methodToFeatureMapping/MethodIdentifier.java:381-387 | the first parameter is taken alone and each later one after a `;` |
| `Formats.IdentityStringCases` | fstcomp/composer/methodToFeatureMapping/MethodIdentifier.java:388-391 | constructors print without name and return type; methods with both |
| `Formats.IdentityStringShape` | fstcomp/composer/methodToFeatureMapping/MethodIdentifier.java:388-391 | the identity starts with the qualified class name |
| `Formats.IdentityStringFeature` | fstcomp/composer/methodToFeatureMapping/MethodIdentifier.java:388-391 | the text after the last `=` is the feature |
| `Formats.IdentityStringParameters` | fstcomp/composer/methodToFeatureMapping/MethodIdentifier.java:379-391 | the parenthesised part splits back into the parameter types |
| `Formats.NativeSignatureCases` | fstcomp/composer/methodToFeatureMapping/MethodIdentifier.java:437-442 | constructors have no return code; methods end with the return type's code and the feature |
| `Formats.JniParamsStep` | fstcomp/composer/methodToFeatureMapping/MethodIdentifier.java:434-436 | each parameter appends its code |
| `Formats.NativeSignatureFeature` | fstcomp/composer/methodToFeatureMapping/MethodIdentifier.java:437-442 | the text after the last `=` of the JNI form is the feature |
| `Formats.NativeSignatureParameters` | fstcomp/composer/methodToFeatureMapping/MethodIdentifier.java:428-443 | the parenthesised part of the JNI form splits into one code per parameter, and plain types decode back |
| `Formats.ParenthesisedNativeParameters` | fstcomp/composer/methodToFeatureMapping/MethodIdentifier.java:433-441 | the parenthesised part of the JNI form is the parameters' codes |
| `Formats.ConstructorSignatureHasNoReturnCode` | fstcomp/composer/methodToFeatureMapping/MethodIdentifier.java:437-442 | the constructor form is the method form named `<init>` without the return code |
| `Identifiers.StringList.constructor` | fstcomp/composer/methodToFeatureMapping/MethodIdentifier.java:21 | a new parameter list is empty |
| `Identifiers.StringList.Copy` | fstcomp/composer/methodToFeatureMapping/MethodIdentifier.java:399 | the copy holds the same types |
| `Identifiers.StringList.Add` | fstcomp/composer/methodToFeatureMapping/MethodIdentifier.java:210 | adding appends one type at the end |
| `Identifiers.MethodIdentifier.Empty` | fstcomp/composer/methodToFeatureMapping/MethodIdentifier.java:358 | the private constructor leaves every field at its initial value |
| `Identifiers.MethodIdentifier.Init` | fstcomp/composer/methodToFeatureMapping/MethodIdentifier.java:163-213 | the fields hold the given values and the given list |
| `Identifiers.MethodIdentifier.FromDeclaration` | fstcomp/composer/methodToFeatureMapping/MethodIdentifier.java:160-214 | the constructor gives an object exactly when `Derive` gives an identity, and then its state is that identity |
| `Identifiers.MethodIdentifier.FromScope` | fstcomp/composer/methodToFeatureMapping/MethodIdentifier.java:195-213 | within a scope, the object's state is the identity `DeriveIn` gives, or there is none |
| `Identifiers.MethodIdentifier.Create` | fstcomp/composer/methodToFeatureMapping/MethodIdentifier.java:37-214 | with the source's own catalogue, the object's state is the identity `Derive` gives, or there is none |
| `Identifiers.MethodIdentifier.ToString` | fstcomp/composer/methodToFeatureMapping/MethodIdentifier.java:377-392 | the loop that tells the first parameter apart prints the identity string of the state |
| `Identifiers.MethodIdentifier.ToJavaNativeSignatureWithFeature` | fstcomp/composer/methodToFeatureMapping/MethodIdentifier.java:428-443 | the loop that appends the codes prints the JNI form of the state |
| `Identifiers.MethodIdentifier.DeepClone` | fstcomp/composer/methodToFeatureMapping/MethodIdentifier.java:393-403 | the clone is a fresh object with a fresh list and the same state |
| `Identifiers.ScopeOf` | fstcomp/composer/methodToFeatureMapping/MethodIdentifier.java:169-192 | the statements that find the units, the package and the imports compute `ScopeFor` |
| `Identifiers.AppendParameterTypes` | fstcomp/composer/methodToFeatureMapping/MethodIdentifier.java:201-212 | the list ends holding the parameter types, or the call reports failure |
| `Identifiers.AppendResolved` | fstcomp/composer/methodToFeatureMapping/MethodIdentifier.java:206-211 | the loop appends each resolved parameter type in order, or reports failure |
| `Identifiers.AppendToClone` | fstcomp/composer/methodToFeatureMapping/MethodIdentifier.java:393-403 | adding to a clone's list leaves the original's state unchanged |
| `Scenarios.ScopeOfClassInUnit` | fstcomp/composer/methodToFeatureMapping/MethodIdentifier.java:169-192 | a method in a class directly under its unit gets that unit's package and imports |
| `Scenarios.ImportsOfOneImport` | fstcomp/composer/methodToFeatureMapping/MethodIdentifier.java:219-237 | a unit with one import between two other children has that one entry |
| `Scenarios.NoModifierWord` | fstcomp/composer/methodToFeatureMapping/MethodIdentifier.java:195-199 | a return type without the letters of any modifier is only trimmed |
| `Scenarios.ResolvedByName` | fstcomp/composer/methodToFeatureMapping/MethodIdentifier.java:313-319 | a simple name that is not imported resolves into `java.lang` or the package |
| `Scenarios.GenericOfSimpleNames` | fstcomp/composer/methodToFeatureMapping/MethodIdentifier.java:281-298 | `O<A>` of two simple names resolves part by part |
| `Scenarios.TypedNameParts` | fstcomp/composer/methodToFeatureMapping/MethodIdentifier.java:209-210 | `T n` is one plain element whose parameter type is the resolution of `T` |
| `Scenarios.OneParameterList` | fstcomp/composer/methodToFeatureMapping/MethodIdentifier.java:201-211 | `(T n)` gives the one resolved type |
| `Scenarios.TwoParameterList` | fstcomp/composer/methodToFeatureMapping/MethodIdentifier.java:201-211 | `(T1 n1, T2 n2)` gives the two resolved types in order |
| `Scenarios.TwoElements` | fstcomp/composer/methodToFeatureMapping/MethodIdentifier.java:344-355 | two plain trimmed elements around `, ` split back into themselves |
| `Scenarios.SlashedThreePartName` | fstcomp/composer/methodToFeatureMapping/MethodIdentifier.java:457 | `a.b.c` becomes `a/b/c` |
| `Scenarios.ClassTypeCode` | fstcomp/composer/methodToFeatureMapping/MethodIdentifier.java:456-458 | a non-primitive class name, with or without type arguments, is coded `L` name-with-slashes `;` |
| `Scenarios.CatalogueHoldsStringNotList` | fstcomp/composer/methodToFeatureMapping/MethodIdentifier.java:37-154 | the catalogue holds `String` but neither `List` nor the empty name |
| `Scenarios.ListImportParsed` | fstcomp/composer/methodToFeatureMapping/MethodIdentifier.java:224-232 | `import java.util.List;` is entered under the key `.List` |
| `Scenarios.ListAndStringResolved` | fstcomp/composer/methodToFeatureMapping/MethodIdentifier.java:311-319 | in `com.acme` with that import, `List` resolves to `com.acme.List` and `String` to `java.lang.String` |
| `Scenarios.BarReturnType` | fstcomp/composer/methodToFeatureMapping/MethodIdentifier.java:195-200 | the return type `List<String>` resolves to `com.acme.List<java.lang.String>` |
| `Scenarios.IntParameter` | fstcomp/composer/methodToFeatureMapping/MethodIdentifier.java:205-211 | `(int x)` gives `int` |
| `Scenarios.BarDerived` | fstcomp/composer/methodToFeatureMapping/MethodIdentifier.java:160-214 | the method `List<String> bar(int x)` of `com.acme.Foo` gets the identity the code computes |
| `Scenarios.BarIdentityString` | fstcomp/composer/methodToFeatureMapping/MethodIdentifier.java:388-391 | that identity prints as `com.acme.Foo.bar(int)com.acme.List<java.lang.String>=Base` |
| `Scenarios.IntCode` | fstcomp/composer/methodToFeatureMapping/MethodIdentifier.java:454-455 | `int` is coded `I` |
| `Scenarios.ListCode` | fstcomp/composer/methodToFeatureMapping/MethodIdentifier.java:447-458 | `com.acme.List<java.lang.String>` is coded `Lcom/acme/List;` |
| `Scenarios.BarNativeSignature` | fstcomp/composer/methodToFeatureMapping/MethodIdentifier.java:437-441 | that identity's JNI form is `com.acme.Foo.bar(I)Lcom/acme/List;=Base` |
| `Scenarios.MethodExample` | fstcomp/composer/methodToFeatureMapping/MethodIdentifier.java:160-214 | the method `List<String> bar(int x)` of `com.acme.Foo`, derived from FST nodes, gets `com.acme.Foo.bar(int)com.acme.List<java.lang.String>=Base` and `com.acme.Foo.bar(I)Lcom/acme/List;=Base`: the imported `java.util.List` is not used |
| `Scenarios.FooScope` | fstcomp/composer/methodToFeatureMapping/MethodIdentifier.java:169-192 | a class in a unit without package or imports has the empty scope |
| `Scenarios.EmptyReturnType` | fstcomp/composer/methodToFeatureMapping/MethodIdentifier.java:195-200 | a constructor's empty return type resolves to the empty text |
| `Scenarios.FooParameters` | fstcomp/composer/methodToFeatureMapping/MethodIdentifier.java:201-212 | `(int a, String b)` gives `int` and `java.lang.String` |
| `Scenarios.FooCtorDerived` | fstcomp/composer/methodToFeatureMapping/MethodIdentifier.java:160-214 | the constructor `Foo(int a, String b)` in the default package gets its identity |
| `Scenarios.FooCtorIdentityString` | fstcomp/composer/methodToFeatureMapping/MethodIdentifier.java:388-389 | that identity prints as `Foo(int;java.lang.String)=Base` |
| `Scenarios.StringCode` | fstcomp/composer/methodToFeatureMapping/MethodIdentifier.java:456-458 | `java.lang.String` is coded `Ljava/lang/String;` |
| `Scenarios.FooCtorNativeSignature` | fstcomp/composer/methodToFeatureMapping/MethodIdentifier.java:437-438 | that identity's JNI form is `Foo.<init>(ILjava/lang/String;)=Base` |
| `Scenarios.ConstructorExample` | fstcomp/composer/methodToFeatureMapping/MethodIdentifier.java:160-214 | the constructor `Foo(int a, String b)` in the default package, derived from FST nodes, gets `Foo(int;java.lang.String)=Base` and `Foo.<init>(ILjava/lang/String;)=Base` |

## Left out

- Exceptions become failures. Where the source throws, the model returns `None`, or `FromDeclaration`
  returns `null`:
  - a type whose first `<` is its last character (`substring` at :286);
  - an import declaration whose trimmed body is empty (`substring` at :225);
  - a parameter without a blank (`lastIndexOf(" ")` is -1 at :209);
  - a class node without a parent (`NullPointerException` at :173-174);
  - a package or import declaration that is not a terminal node (`ClassCastException` at :223 and :245).
- Node identity: the source compares two compilation units with `equals` (:181, :190), which FST nodes
  inherit from `Object`. The model compares them structurally. Two different units with equal contents
  have the same package and imports, so merging them or not gives the same package and table.
- The assertion at :161 becomes the `requires` of `Derive` and of the constructors. Java runs with
  assertions disabled by default, and every caller passes a method or constructor node.
- `Signature.fromString` is not part of this model: it is in another class. Its result, the name, the
  return-type text and the parameter-list text, is an input to `Derive`. The model takes it
  independently of the node's body, so it does not tie the signature to the declaration text it came
  from.
- The regular expressions of `replaceAll` at :196-198 are plain words, so they are modelled as literal
  removal of every occurrence. The `\[\s*\]` of :451 is modelled by `PairAt` with Java's blank
  characters.
- The message printed on `System.err` for a wildcard import (:227) is left out. The import is skipped,
  as in the source.
- Java strings are UTF-16 sequences; the model uses `seq<char>`, and no operation here depends on the
  difference.
- The getters and setters at :359-376 only read or write one field and are left out.
- The `HashMap` and `HashSet` tables are maps and sets: their iteration order is never observed by the
  class.
- The static tables are filled by instance initialisers (:26-36, :38-154, :409-419), so they are full
  before any method reads them. The model makes them constants. The catalogue is passed to the resolver
  as part of its scope, and `Create` supplies the source's own catalogue.
- Concurrent use of the static tables while the first instance is being built is not modelled.
- The constructor writes `className` last (:213). The model builds the object in one step at the end,
  because no field is read while the constructor is still running.
