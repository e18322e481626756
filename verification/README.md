# demodel core in Dafny

demodel reads compiled Java classes and shows the dependencies between packages and types in a
dependency structure matrix. This project models its core:

- **Module tree.** The tree of packages and types (`PackageModule`, `ClassModule`). It models
  leaf counting and program-module reachability. It models the greedy reordering of a
  package's children by least outgoing dependency, then reversed. It also models moving a
  child one step, pruning subtrees that were only referenced, and normalising packages that
  mix sub-packages and types under a synthetic `<classes>` package.
- **Flat `Module` class.** Its strength table, with `addDependency` as get-or-increment.
- **`DependencyModel.sortModules`.** A greedy ordering by least incoming strength.
- **`PackageMetrics`.** Instability, abstractness and distance from the main sequence, with
  non-negative setters.
- **`DependencyMatrixViewModel`.** The view model's state machine: selection, selected cell,
  opened modules, the cached pre-order list of visible modules, and the commands on them.
- **Ingestion helpers.** The parser's module-key normalisation, get-or-create over a `TreeMap`,
  the class-visitor callbacks, the generic-signature splitter of `SignatureUtils`, and the
  access-flag classifier of `AccessUtils`.
- **`IdentityHashSet`.** A set with identity membership.

Each operation that changes state is a method. Its contract ties the result or the new state to
a specification function. Lemmas then prove what the code promises about those functions:
permutations, first-minimum picks, inverses, idempotence, invariants and concrete examples.

Files (one module each):

| file | module | models |
|---|---|---|
| wrappers.dfy | Wrappers | Option, Result and the Java exceptions thrown |
| kinds.dfy | Kinds | `TypeType`, `MoveDirection`, `DependencyType` |
| sequences.dfy | Sequences | the `java.util.List`/`Collections` operations used |
| string_order.dfy | StringOrder | `String.compareTo` over UTF-16 code units, and the key order of a `TreeMap` |
| module_tree.dfy | ModuleTree | `PackageModule`/`ClassModule` as the datatype `Node`, and their queries |
| package_sort.dfy | PackageSort | `move`, `sortChildren`, `pickModuleWithLeastOutgoingDependencies` |
| tree_filter.dfy | TreeFilter | `filterNonProgramReferences` |
| tree_normalize.dfy | TreeNormalize | `normalizeTree` |
| tree_edit.dfy | TreeEdit | finding and replacing a node by identity |
| identity_hash_set.dfy | IdentitySets | `IdentityHashSet` |
| flat_module.dfy | FlatModules | `Module.java` |
| dependency_model.dfy | Dependencies | `DependencyModel` |
| package_metrics.dfy | Metrics | `PackageMetrics`, `Check.notNegative` |
| access_utils.dfy | AccessFlags | `AccessUtils` (the `access_flags` of section 4.1 of the Java Virtual Machine Specification) |
| view_model.dfy | MatrixView | `ui/matrix/DependencyMatrixViewModel` |
| dependency_parser.dfy | JavaParser | `JavaDependencyParser` |
| signatures.dfy | Signatures | `SignatureUtils` |

### Behaviour worth noting

- **`sortChildren` is not idempotent.** It reverses the greedy pick order, so without
  outgoing weights a second sort restores the original order
  (`PackageSort.SortTwiceWithoutWeights`).
- **`DependencyModel`'s constructor body is commented out**, so a new model is empty.
- **The nested-signature test expects another order.** For the signature of
  `Map<String, Map<Integer, Float>>` the code gives the descriptors `Ljava/util/Map;`,
  `Ljava/lang/String;`, `Ljava/util/Map<Ljava/lang/Integer;`, `Ljava/lang/Float;` and `>;`
  (`Signatures.NestedArguments`). The test `nestedSignature`
  (src/test/java/komu/demodel/parser/java/SignatureUtilsTest.java:31-32) expects
  `java.lang.Integer` at index 3, where the code gives the plain descriptor of
  `java.lang.Float`. So that assertion fails whatever ASM makes of the other two descriptors.

## Model

| member | source | states |
|---|---|---|
| ModuleTree.NewPackageModule | src/main/java/komu/demodel/domain/PackageModule.java:17-19 | a new package has the given identity and name, is a leaf, is not a program module, and counts one leaf |
| ModuleTree.NewClassModule | src/main/java/komu/demodel/domain/ClassModule.java:17-19 | a new type is not a program module and not abstract, has no children, and counts one leaf |
| ModuleTree.MarkAsProgramModule | src/main/java/komu/demodel/domain/ClassModule.java:21-24 | afterwards the type is a program module and is abstract exactly when the given type kind is |
| ModuleTree.IsAbstract | src/main/java/komu/demodel/domain/ClassModule.java:31-33 | a type is abstract only once its kind is known; after MarkAsProgramModule it is that kind's IsAbstract |
| ModuleTree.IsLeaf | src/main/java/komu/demodel/domain/PackageModule.java:27-29 | a type is always a leaf (ClassModule.java:46-48), and a leaf counts exactly one leaf |
| ModuleTree.ProgramModule | src/main/java/komu/demodel/domain/PackageModule.java:32-38 | an empty package is never a program module; IsProgramModule computes it |
| ModuleTree.GetChildren | src/main/java/komu/demodel/domain/PackageModule.java:27-29 | a node is a leaf exactly when its child list is empty; a type's list is always empty |
| ModuleTree.AddChild | src/main/java/komu/demodel/domain/PackageModule.java:82-86 | the child is appended at the end, the package keeps its identity and is no longer a leaf |
| ModuleTree.LeafCount | src/main/java/komu/demodel/domain/PackageModule.java:41-49 | a subtree counts at least one leaf |
| ModuleTree.SumLeafCounts | src/main/java/komu/demodel/domain/PackageModule.java:44-47 | the sum over siblings is at least their number |
| ModuleTree.IsProgramModule | src/main/java/komu/demodel/domain/PackageModule.java:32-38 | the scan returns whether some descendant type was visited; an empty package is not a program module |
| ModuleTree.CountLeafsUnder | src/main/java/komu/demodel/domain/PackageModule.java:41-49 | the loop returns LeafCount, which is at least 1 |
| Kinds.TypeType.IsAbstract | src/main/java/komu/demodel/domain/TypeType.java:9-11 | abstract classes and interfaces are abstract, concrete classes not |
| Kinds.MoveDirection.Delta | src/main/java/komu/demodel/domain/MoveDirection.java:7 | UP moves by -1 and DOWN by +1 |
| PackageSort.Move | src/main/java/komu/demodel/domain/PackageModule.java:88-95 | the children stay a permutation of the same length; for a valid move the child ends at index plus delta and the others keep their order; otherwise nothing changes |
| PackageSort.MoveUpThenDown | src/main/java/komu/demodel/domain/PackageModule.java:88-95 | moving a child up and then down restores the package |
| PackageSort.OutgoingWeights | src/main/java/komu/demodel/domain/PackageModule.java:126-128 | each position holds the outgoing weight of that module against the whole work list |
| PackageSort.PickIndex | src/main/java/komu/demodel/domain/PackageModule.java:122-136 | the picked position lies within the work list |
| PackageSort.GreedyOrder | src/main/java/komu/demodel/domain/PackageModule.java:102-106 | the pick sequence is a permutation of the work list |
| PackageSort.SortedChildren | src/main/java/komu/demodel/domain/PackageModule.java:98-109 | the reversed pick sequence; SortedChildrenProperties makes it a permutation ending with the first pick |
| PackageSort.PickModuleWithLeastOutgoingDependencies | src/main/java/komu/demodel/domain/PackageModule.java:122-136 | the loop returns the module at PickIndex |
| PackageSort.PickedIsFirstLeast | src/main/java/komu/demodel/domain/PackageModule.java:122-136 | the pick has the least outgoing weight, is the first occurrence of itself, and no earlier module ties with it |
| PackageSort.SortedChildrenProperties | src/main/java/komu/demodel/domain/PackageModule.java:98-109 | sorted children are a permutation of the children, and the last one is the module picked first |
| PackageSort.SortChildren | src/main/java/komu/demodel/domain/PackageModule.java:98-109 | the loop leaves a package's children in reversed greedy order; a type is unchanged (ClassModule.java:64-66) |
| PackageSort.GreedyOrderWithoutWeights | src/main/java/komu/demodel/domain/PackageModule.java:122-136 | when every weight is zero the first module always wins, so the picks keep the list order |
| PackageSort.SortTwiceWithoutWeights | src/main/java/komu/demodel/domain/PackageModule.java:98-109 | with zero weights sorting reverses the children, sorting twice restores them, and a list whose ends differ is changed |
| TreeFilter.Filtered | src/main/java/komu/demodel/domain/PackageModule.java:112-120 | the node keeps its identity and program status, a type is unchanged (ClassModule.java:55-57), and no non-program node is left below it |
| TreeFilter.FilterChildren | src/main/java/komu/demodel/domain/PackageModule.java:113-119 | only program children survive, each filtered recursively; the list empties exactly when no child is a program module |
| TreeFilter.FilterNonProgramReferences | src/main/java/komu/demodel/domain/PackageModule.java:112-120 | the iterator loop computes Filtered |
| TreeFilter.FilteredKeepsProgramModules | src/main/java/komu/demodel/domain/PackageModule.java:112-120 | filtering keeps program status, never adds children, and leaves only program nodes |
| TreeFilter.FilterUnchanged | src/main/java/komu/demodel/domain/PackageModule.java:112-120 | a tree that holds only program nodes is left as it is |
| TreeFilter.FilterChildrenUnchanged | src/main/java/komu/demodel/domain/PackageModule.java:113-119 | siblings that are all program nodes are kept as they are |
| TreeFilter.FilterIdempotent | src/main/java/komu/demodel/domain/PackageModule.java:112-120 | filtering twice is filtering once |
| TreeFilter.FilterDropsReferencedOnlyPackage | src/main/java/komu/demodel/domain/PackageModule.java:112-120 | a concrete tree: the package holding only a referenced type is removed, the visited one kept |
| TreeNormalize.PackagesOf | src/main/java/komu/demodel/domain/PackageModule.java:57-68 | the sub-packages among the children, in order |
| TreeNormalize.TypesOf | src/main/java/komu/demodel/domain/PackageModule.java:57-68 | the types among the children, in order |
| TreeNormalize.Normalized | src/main/java/komu/demodel/domain/PackageModule.java:56-75 | the node keeps its identity and kind, and the result never mixes sub-packages and types under one package |
| TreeNormalize.NormalizeEach | src/main/java/komu/demodel/domain/PackageModule.java:60-64 | each child is normalised in place and keeps its kind |
| TreeNormalize.RemoveAll | src/main/java/komu/demodel/domain/PackageModule.java:73 | children.removeAll keeps exactly the elements that do not occur in the removed list |
| TreeNormalize.RemoveAllAppend | src/main/java/komu/demodel/domain/PackageModule.java:73 | removeAll works element by element, so the survivors keep their order |
| TreeNormalize.NormalizeTree | src/main/java/komu/demodel/domain/PackageModule.java:56-75 | the loops compute Normalized |
| TreeNormalize.RemoveTypesAfterPseudoPackage | src/main/java/komu/demodel/domain/PackageModule.java:70-74 | after the `<classes>` package is appended and the types removed, the sub-packages remain in order followed by `<classes>` |
| TreeNormalize.RemoveTypes | src/main/java/komu/demodel/domain/PackageModule.java:73 | removing all types from a list leaves its sub-packages in order |
| TreeNormalize.NormalUnchanged | src/main/java/komu/demodel/domain/PackageModule.java:56-75 | a tree that is already normal is left unchanged |
| TreeNormalize.NormalizeEachUnchanged | src/main/java/komu/demodel/domain/PackageModule.java:60-64 | normal children are left as they are |
| TreeNormalize.NormalizeIdempotent | src/main/java/komu/demodel/domain/PackageModule.java:56-75 | normalising twice is normalising once |
| TreeNormalize.SumLeafCountsConcat | src/main/java/komu/demodel/domain/PackageModule.java:44-47 | the leaf count of two lists of siblings put together is the sum of their leaf counts |
| TreeNormalize.SumLeafCountsSplit | src/main/java/komu/demodel/domain/PackageModule.java:57-68 | the leaf count splits into that of the sub-packages plus that of the types |
| TreeNormalize.NormalizedLeafCount | src/main/java/komu/demodel/domain/PackageModule.java:56-75 | normalising keeps the number of leaves |
| TreeNormalize.NormalizeEachLeafCount | src/main/java/komu/demodel/domain/PackageModule.java:60-64 | normalising children keeps their total leaf count |
| TreeNormalize.NormalizeMixedPackage | src/main/java/komu/demodel/domain/PackageModule.java:56-75 | a concrete package with a sub-package and a type gets the sub-package then `<classes>` holding the type |
| TreeNormalize.NormalizeEachConcat | src/main/java/komu/demodel/domain/PackageModule.java:60-64 | normalising two lists of children put together gives the first list's normal forms followed by the second's |
| TreeNormalize.NormalizeEachTypes | src/main/java/komu/demodel/domain/PackageModule.java:60-67 | the types among the normalised children are the original types, unchanged and in order |
| TreeNormalize.NormalizeEachPackages | src/main/java/komu/demodel/domain/PackageModule.java:60-64 | the sub-packages among the normalised children are the original ones, each normalised, in order |
| TreeNormalize.NormalizedMixed | src/main/java/komu/demodel/domain/PackageModule.java:56-75 | a mixed package gets its sub-packages, normalised and in order, then one `<classes>` package holding its types in order |
| TreeNormalize.NormalizedUnmixed | src/main/java/komu/demodel/domain/PackageModule.java:56-75 | a package that does not mix sub-packages and types only has its children normalised |
| TreeEdit.Find | src/main/java/komu/demodel/ui/matrix/DependencyMatrixViewModel.java:163-177 | a found node has the identity looked for; the root is found first |
| TreeEdit.FindIn | src/main/java/komu/demodel/ui/matrix/DependencyMatrixViewModel.java:163-177 | a node found among siblings has the identity looked for |
| TreeEdit.Replace | src/main/java/komu/demodel/ui/matrix/DependencyMatrixViewModel.java:163-177 | a node with that identity becomes the new node; any other node keeps its identity, name and kind |
| TreeEdit.ReplaceIn | src/main/java/komu/demodel/ui/matrix/DependencyMatrixViewModel.java:163-177 | replacing among siblings keeps their number |
| TreeEdit.ChildWithId | src/main/java/komu/demodel/domain/PackageModule.java:89 | the child with that identity, absent exactly when no child has it |
| TreeEdit.ParentOf | src/main/java/komu/demodel/ui/matrix/DependencyMatrixViewModel.java:171-177 | a found parent is a package holding a child with that identity |
| TreeEdit.ParentIn | src/main/java/komu/demodel/ui/matrix/DependencyMatrixViewModel.java:171-177 | the same over siblings |
| TreeEdit.ReplaceAbsent | src/main/java/komu/demodel/ui/matrix/DependencyMatrixViewModel.java:163-177 | replacing an identity that does not occur changes nothing |
| TreeEdit.ReplaceInAbsent | src/main/java/komu/demodel/ui/matrix/DependencyMatrixViewModel.java:163-177 | the same over siblings |
| TreeEdit.FindReplaced | src/main/java/komu/demodel/ui/matrix/DependencyMatrixViewModel.java:163-177 | after a replacement the root finds the new node: the change is seen through the tree |
| TreeEdit.FindInReplaced | src/main/java/komu/demodel/ui/matrix/DependencyMatrixViewModel.java:163-177 | the same over siblings |
| IdentitySets.IdentityHashSet.constructor | src/main/java/komu/demodel/utils/IdentityHashSet.java:9 | a new set is empty |
| IdentitySets.IdentityHashSet.Size | src/main/java/komu/demodel/utils/IdentityHashSet.java:16-19 | the size is zero exactly for the empty set |
| IdentitySets.IdentityHashSet.Contains | src/main/java/komu/demodel/utils/IdentityHashSet.java:11-14 | membership by identity |
| IdentitySets.IdentityHashSet.Add | src/main/java/komu/demodel/utils/IdentityHashSet.java:26-29 | true exactly when the element was absent; afterwards it is present, the size grows by one only for a new element, and no other element changes |
| IdentitySets.IdentityHashSet.Remove | src/main/java/komu/demodel/utils/IdentityHashSet.java:21-24 | true exactly when the element was present; afterwards it is absent, the size shrinks by one only for a removed element, and no other element changes |
| FlatModules.Strength | src/main/java/komu/demodel/domain/Module.java:63-70 | the recorded count, or 0 without an entry |
| FlatModules.Increment | src/main/java/komu/demodel/domain/Module.java:76-83 | the strength to the target rises by exactly one and every other entry is unchanged |
| FlatModules.IncrementTimesStrength | src/main/java/komu/demodel/domain/Module.java:76-83 | n increments raise the strength by n and leave other targets alone |
| FlatModules.IncrementTimes | src/main/java/komu/demodel/domain/Module.java:76-83 | after at least one call the target has an entry and no other key is added |
| FlatModules.FreshModuleStrength | src/main/java/komu/demodel/domain/Module.java:16 | after n increments on a fresh table the strength is n |
| FlatModules.Module.constructor | src/main/java/komu/demodel/domain/Module.java:18-22 | the given name, not a program module, no children, no strengths |
| FlatModules.Module.SetName | src/main/java/komu/demodel/domain/Module.java:28-30 | the name is overwritten |
| FlatModules.Module.SetProgramModule | src/main/java/komu/demodel/domain/Module.java:36-38 | the flag is overwritten |
| FlatModules.Module.IsLeaf | src/main/java/komu/demodel/domain/Module.java:40-42 | a module without children; CountLeafsUnder counts such a module as one leaf |
| FlatModules.Module.GetDependencyStrength | src/main/java/komu/demodel/domain/Module.java:59-70 | the strength read from the table, 0 without an entry |
| FlatModules.Module.SetDependencyStrength | src/main/java/komu/demodel/domain/Module.java:72-74 | the entry becomes the given strength and no other entry changes |
| FlatModules.Module.AddDependency | src/main/java/komu/demodel/domain/Module.java:76-83 | the table becomes Increment of the old one, whatever the dependency kind |
| FlatModules.Module.AddChild | src/main/java/komu/demodel/domain/Module.java:55-57 | the child is appended to the children |
| FlatModules.Module.LeafCount | src/main/java/komu/demodel/domain/Module.java:44-53 | a module counts at least one leaf |
| FlatModules.Module.SumLeafCounts | src/main/java/komu/demodel/domain/Module.java:47-51 | the sum over children is at least their number |
| FlatModules.Module.CountLeafsUnder | src/main/java/komu/demodel/domain/Module.java:44-53 | the loop returns LeafCount |
| Dependencies.TablesOf | src/main/java/komu/demodel/domain/DependencyModel.java:68-73 | the strength table of every module in the list |
| Dependencies.StrengthIn | src/main/java/komu/demodel/domain/DependencyModel.java:71 | `m.getDependencyStrength(x)` read from the table |
| Dependencies.IncomingWeight | src/main/java/komu/demodel/domain/DependencyModel.java:68-73 | the summed strength toward a module from the listed modules; IncomingDependencies computes it and NoDependenciesZeroWeight makes it zero without dependencies |
| Dependencies.Weights | src/main/java/komu/demodel/domain/DependencyModel.java:61-63 | each module's incoming weight against the work list |
| Dependencies.WeightsAgainst | src/main/java/komu/demodel/domain/DependencyModel.java:61-63 | incoming weights of some modules against a list |
| Dependencies.CompareTo | src/main/java/komu/demodel/domain/DependencyModel.java:85-87 | negative, zero or positive exactly as the first weight is lower, equal or higher |
| Dependencies.WeightsOf | src/main/java/komu/demodel/domain/DependencyModel.java:75-89 | the weights of the pairs, in order |
| Dependencies.CollectionsMin | src/main/java/komu/demodel/domain/DependencyModel.java:65 | the first pair with the least weight; no pair compares lower |
| Dependencies.PickIndex | src/main/java/komu/demodel/domain/DependencyModel.java:58-66 | the picked position lies within the work list |
| Dependencies.GreedyOrder | src/main/java/komu/demodel/domain/DependencyModel.java:47-56 | the pick order has the length of the list |
| Dependencies.GreedyOrderIsPermutation | src/main/java/komu/demodel/domain/DependencyModel.java:47-56 | the sorted list is a permutation of the old one |
| Dependencies.IncomingWeightAgree | src/main/java/komu/demodel/domain/DependencyModel.java:68-73 | the incoming weight depends only on the tables of the listed modules |
| Dependencies.WeightsAgree | src/main/java/komu/demodel/domain/DependencyModel.java:58-66 | tables that agree on the list give the same weights and the same pick |
| Dependencies.IncomingDependencies | src/main/java/komu/demodel/domain/DependencyModel.java:68-73 | the loop sums the strength from every listed module, the module itself included |
| Dependencies.PickModuleWithLeastIncomingDependencies | src/main/java/komu/demodel/domain/DependencyModel.java:58-66 | an empty list fails with IllegalArgumentException("empty modules"); otherwise the module at PickIndex |
| Dependencies.PickedIsFirstLeast | src/main/java/komu/demodel/domain/DependencyModel.java:58-66 | the pick has the least incoming weight and every earlier module weighs strictly more |
| Dependencies.FirstIsLeastIncoming | src/main/java/komu/demodel/domain/DependencyModel.java:47-56 | the first sorted module has the least incoming weight over the whole list |
| Dependencies.NoDependenciesKeepsOrder | src/main/java/komu/demodel/domain/DependencyModel.java:47-56 | without dependencies sorting keeps the order |
| Dependencies.NoDependenciesZeroWeight | src/main/java/komu/demodel/domain/DependencyModel.java:68-73 | a module nobody depends on weighs zero |
| Dependencies.SortedByIncoming | src/main/java/komu/demodel/domain/DependencyModel.java:47-56 | the loop produces GreedyOrder |
| Dependencies.PickInto | src/main/java/komu/demodel/domain/DependencyModel.java:52-54 | one step moves the pick from the work list to the sorted list and keeps sorted plus remaining order |
| Dependencies.DependencyModel.constructor | src/main/java/komu/demodel/domain/DependencyModel.java:13-41 | a new model is empty |
| Dependencies.DependencyModel.SortModules | src/main/java/komu/demodel/domain/DependencyModel.java:47-56 | the modules become GreedyOrder of the old list (a permutation, least incoming first) |
| Metrics.DecimalDigits | src/main/java/komu/demodel/utils/Check.java:18 | the decimal text of a number: non-empty digits, no leading zero except for 0, denoting the number (DecimalDigitsValue) |
| Metrics.DecimalDigitsValue | src/main/java/komu/demodel/utils/Check.java:18 | the digits written for a number denote that number |
| Metrics.NegativeMessage | src/main/java/komu/demodel/utils/Check.java:17-19 | the message of a rejected negative value; the number after the minus sign denotes its magnitude (DecimalDigitsValue) |
| Metrics.Instability | src/main/java/komu/demodel/domain/PackageMetrics.java:22-26 | 0 without couplings, otherwise efferent over total; in [0, 1] for non-negative counts |
| Metrics.Abstractness | src/main/java/komu/demodel/domain/PackageMetrics.java:84-90 | 0 without types, otherwise abstract over all types; in [0, 1] when abstract types do not outnumber types |
| Metrics.Abs | src/main/java/komu/demodel/domain/PackageMetrics.java:102 | Math.abs: non-negative and equal to the value or its negation |
| Metrics.Distance | src/main/java/komu/demodel/domain/PackageMetrics.java:101-103 | non-negative, zero exactly on the main sequence A + I = 1, and at most 1 for valid counters |
| Metrics.PackageMetrics.constructor | src/main/java/komu/demodel/domain/PackageMetrics.java:14-17 | all four counters start at zero |
| Metrics.PackageMetrics.SetNumberOfTypes | src/main/java/komu/demodel/domain/PackageMetrics.java:42-46 | a negative value fails with IllegalArgumentException and changes nothing; otherwise it is stored |
| Metrics.PackageMetrics.SetNumberOfAbstractTypes | src/main/java/komu/demodel/domain/PackageMetrics.java:48-52 | a negative value fails with IllegalArgumentException and changes nothing; otherwise it is stored |
| Metrics.PackageMetrics.SetAfferentCouplings | src/main/java/komu/demodel/domain/PackageMetrics.java:61-65 | a negative value fails with IllegalArgumentException and changes nothing; otherwise it is stored |
| Metrics.PackageMetrics.SetEfferentCouplings | src/main/java/komu/demodel/domain/PackageMetrics.java:74-78 | a negative value fails with IllegalArgumentException and changes nothing; otherwise it is stored |
| Metrics.PackageMetrics.GetInstability | src/main/java/komu/demodel/domain/PackageMetrics.java:22-26 | instability of valid counters lies in [0, 1] |
| Metrics.PackageMetrics.GetAbstractness | src/main/java/komu/demodel/domain/PackageMetrics.java:84-90 | abstractness lies in [0, 1] when abstract types do not outnumber types |
| Metrics.PackageMetrics.GetDistanceFromMainSequence | src/main/java/komu/demodel/domain/PackageMetrics.java:101-103 | the distance lies in [0, 1] under the same condition |
| Metrics.FreshMetrics | src/main/java/komu/demodel/domain/PackageMetrics.java:14-17 | fresh metrics have abstractness 0, instability 0 and distance 1 |
| Metrics.ThreeTypesOneAbstract | src/main/java/komu/demodel/domain/PackageMetrics.java:84-103 | a concrete package: A = 1/3, I = 1/4, distance 5/12 |
| AccessFlags.GetTypeFromAccessFlags | src/main/java/komu/demodel/parser/java/AccessUtils.java:14-18 | interface when the interface bit is set, even with the abstract bit; abstract class when only the abstract bit is set; concrete class when neither is |
| AccessFlags.AbstractIffFlags | src/main/java/komu/demodel/domain/TypeType.java:9-11 | the classified kind is abstract exactly when `access & 0x0600` is non-zero |
| AccessFlags.OtherBitsIrrelevant | src/main/java/komu/demodel/parser/java/AccessUtils.java:14-18 | setting or clearing bits other than interface and abstract never changes the kind |
| AccessFlags.SettingPublicFinalSuper | src/main/java/komu/demodel/parser/java/AccessUtils.java:8-12 | setting PUBLIC, FINAL and SUPER never changes the kind |
| AccessFlags.ClearingPublicFinalSuper | src/main/java/komu/demodel/parser/java/AccessUtils.java:8-12 | clearing PUBLIC, FINAL and SUPER never changes the kind |
| MatrixView.Visible | src/main/java/komu/demodel/ui/matrix/DependencyMatrixViewModel.java:112-129 | the walk starts with the module itself and is just that module when it is closed or a leaf |
| MatrixView.VisibleAll | src/main/java/komu/demodel/ui/matrix/DependencyMatrixViewModel.java:123-129 | the walk of siblings lists at least each of them |
| MatrixView.VisibleAllMembers | src/main/java/komu/demodel/ui/matrix/DependencyMatrixViewModel.java:123-129 | a module is in the siblings' walk exactly when it is in the walk of one of them |
| MatrixView.OpeningMoreShowsMore | src/main/java/komu/demodel/ui/matrix/DependencyMatrixViewModel.java:123-129 | opening more modules never hides one |
| MatrixView.VisibleTransitive | src/main/java/komu/demodel/ui/matrix/DependencyMatrixViewModel.java:123-129 | what is visible under a visible module is visible from the root |
| MatrixView.OpenShowsChildren | src/main/java/komu/demodel/ui/matrix/DependencyMatrixViewModel.java:179-184 | opening a visible package makes each of its children visible |
| MatrixView.Ids | src/main/java/komu/demodel/ui/matrix/DependencyMatrixViewModel.java:153 | the identities of the visible list, position by position |
| MatrixView.SelectionAfterMove | src/main/java/komu/demodel/ui/matrix/DependencyMatrixViewModel.java:149-161 | the new selection is the old one or a visible module |
| MatrixView.MoveDownThenUp | src/main/java/komu/demodel/ui/matrix/DependencyMatrixViewModel.java:149-161 | with distinct identities, moving down then up returns to the same selection |
| MatrixView.MissingSelectionMovesToRoot | src/main/java/komu/demodel/ui/matrix/DependencyMatrixViewModel.java:149-161 | a selection not in the visible list has index -1, so down selects the root and up changes nothing |
| MatrixView.SortedAtFindsSorted | src/main/java/komu/demodel/ui/matrix/DependencyMatrixViewModel.java:163-169 | after sorting, the selected node found from the root has its children sorted, and the root keeps its identity |
| MatrixView.SortedAt | src/main/java/komu/demodel/ui/matrix/DependencyMatrixViewModel.java:163-169 | the tree with the selected node's children sorted; SortedAtFindsSorted states what the root then finds |
| MatrixView.ParentIsNode | src/main/java/komu/demodel/ui/matrix/DependencyMatrixViewModel.java:171-177 | the parent of a node is itself a node of the tree |
| MatrixView.ParentInIsNode | src/main/java/komu/demodel/ui/matrix/DependencyMatrixViewModel.java:171-177 | the same over siblings |
| MatrixView.MovedAtFindsMoved | src/main/java/komu/demodel/ui/matrix/DependencyMatrixViewModel.java:171-177 | after moving the selection, the parent found from the root is the parent with the child moved |
| MatrixView.MovedAt | src/main/java/komu/demodel/ui/matrix/DependencyMatrixViewModel.java:171-177 | the tree with the selected node moved within its parent; MovedAtFindsMoved states what the root then finds |
| MatrixView.LeavesListOwnDependencies | src/main/java/komu/demodel/ui/matrix/DependencyMatrixViewModel.java:94-110 | for two leaves the details are just their own dependency lines |
| MatrixView.DependencyText | src/main/java/komu/demodel/ui/matrix/DependencyMatrixViewModel.java:94-110 | the text listDependencies appends; LeavesListOwnDependencies gives it for two leaves |
| MatrixView.DependencyMatrixViewModel.constructor | src/main/java/komu/demodel/ui/matrix/DependencyMatrixViewModel.java:39-45 | the root is selected and is the only opened module; no cell, no cache, no notification |
| MatrixView.DependencyMatrixViewModel.FlushCaches | src/main/java/komu/demodel/ui/matrix/DependencyMatrixViewModel.java:47-50 | the visible-module cache is emptied |
| MatrixView.DependencyMatrixViewModel.FireStateChanged | src/main/java/komu/demodel/ui/matrix/DependencyMatrixViewModel.java:56-58 | one more notification |
| MatrixView.DependencyMatrixViewModel.GetVisibleModules | src/main/java/komu/demodel/ui/matrix/DependencyMatrixViewModel.java:112-121 | the visible walk from the root, which is then cached |
| MatrixView.DependencyMatrixViewModel.AddVisibleModules | src/main/java/komu/demodel/ui/matrix/DependencyMatrixViewModel.java:123-129 | the accumulator is extended by the walk of the given modules |
| MatrixView.DependencyMatrixViewModel.GetVisibleModuleCount | src/main/java/komu/demodel/ui/matrix/DependencyMatrixViewModel.java:68-70 | the length of the visible walk, at least 1 |
| MatrixView.DependencyMatrixViewModel.GetModuleAt | src/main/java/komu/demodel/ui/matrix/DependencyMatrixViewModel.java:131-133 | the visible module at the index, or IndexOutOfBounds outside the list |
| MatrixView.DependencyMatrixViewModel.DependencyStrength | src/main/java/komu/demodel/ui/matrix/DependencyMatrixViewModel.java:72-76 | the strength from visible module `from` to visible module `to`, or IndexOutOfBounds |
| MatrixView.DependencyMatrixViewModel.GetDependencyDetailsOfSelectedCell | src/main/java/komu/demodel/ui/matrix/DependencyMatrixViewModel.java:78-92 | null without a selected cell; otherwise the heading and DependencyText of the two visible modules, or IndexOutOfBounds |
| MatrixView.DependencyMatrixViewModel.ListDependencies | src/main/java/komu/demodel/ui/matrix/DependencyMatrixViewModel.java:94-110 | the builder is extended by DependencyText |
| MatrixView.DependencyMatrixViewModel.ListFromChildren | src/main/java/komu/demodel/ui/matrix/DependencyMatrixViewModel.java:95-99 | the loop over the "from" children appends their texts in order |
| MatrixView.DependencyMatrixViewModel.ListToChildren | src/main/java/komu/demodel/ui/matrix/DependencyMatrixViewModel.java:100-104 | the loop over the "to" children appends their texts in order |
| MatrixView.DependencyMatrixViewModel.AppendLines | src/main/java/komu/demodel/ui/matrix/DependencyMatrixViewModel.java:105-109 | the loop appends each of the pair's own dependency lines |
| MatrixView.DependencyMatrixViewModel.SetSelectedModule | src/main/java/komu/demodel/ui/matrix/DependencyMatrixViewModel.java:135-140 | the selection is stored; a notification fires only when it changes |
| MatrixView.DependencyMatrixViewModel.SetSelectedCell | src/main/java/komu/demodel/ui/matrix/DependencyMatrixViewModel.java:142-147 | a null cell throws NullPointerException and changes nothing; otherwise it is stored, with a notification only when it differs |
| MatrixView.DependencyMatrixViewModel.MoveSelection | src/main/java/komu/demodel/ui/matrix/DependencyMatrixViewModel.java:149-161 | nothing without a selection; otherwise SelectionAfterMove over the visible walk, with a notification whenever the target index is inside the visible list |
| MatrixView.DependencyMatrixViewModel.SortModules | src/main/java/komu/demodel/ui/matrix/DependencyMatrixViewModel.java:163-169 | nothing without a selection; otherwise the selected node is sorted in the tree, the cache flushed and one notification fired |
| MatrixView.DependencyMatrixViewModel.MoveSelectedModule | src/main/java/komu/demodel/ui/matrix/DependencyMatrixViewModel.java:171-177 | nothing without a selection; otherwise the selected node moves within its parent, the cache flushed and one notification fired |
| MatrixView.DependencyMatrixViewModel.OpenSelectedModule | src/main/java/komu/demodel/ui/matrix/DependencyMatrixViewModel.java:179-184 | a selected module with children joins the opened set; the cache is invalidated and a notification fired only if it was closed |
| MatrixView.DependencyMatrixViewModel.CloseSelectedModule | src/main/java/komu/demodel/ui/matrix/DependencyMatrixViewModel.java:186-191 | a selected module with children leaves the opened set; the cache is invalidated and a notification fired only if it was open |
| MatrixView.DependencyMatrixViewModel.IsOpened | src/main/java/komu/demodel/ui/matrix/DependencyMatrixViewModel.java:193-195 | membership in the opened set |
| MatrixView.DependencyMatrixViewModel.HasSelection | src/main/java/komu/demodel/ui/matrix/DependencyMatrixViewModel.java:201-203 | whether a module is selected |
| MatrixView.NewDependencyMatrixViewModel | src/main/java/komu/demodel/ui/matrix/DependencyMatrixViewModel.java:39-45 | a null root fails with NullPointerException; otherwise a fresh view model as the constructor states |
| StringOrder.Units | src/main/java/komu/demodel/parser/java/JavaDependencyParser.java:32 | a character is one code unit below U+10000, otherwise a high surrogate followed by a low surrogate |
| StringOrder.UnitsInjective | src/main/java/komu/demodel/parser/java/JavaDependencyParser.java:32 | two characters with the same code units are equal |
| StringOrder.Utf16 | src/main/java/komu/demodel/parser/java/JavaDependencyParser.java:32 | the UTF-16 encoding of a string is at least as long as the string and empty only for the empty string |
| StringOrder.Utf16Injective | src/main/java/komu/demodel/parser/java/JavaDependencyParser.java:32 | different strings have different UTF-16 encodings |
| StringOrder.UnitsLessIrreflexive | src/main/java/komu/demodel/parser/java/JavaDependencyParser.java:32 | no code-unit sequence comes before itself |
| StringOrder.UnitsLessTransitive | src/main/java/komu/demodel/parser/java/JavaDependencyParser.java:32 | the lexicographic order of code-unit sequences is transitive |
| StringOrder.UnitsLessTotal | src/main/java/komu/demodel/parser/java/JavaDependencyParser.java:32 | two different code-unit sequences are ordered one way or the other |
| StringOrder.LessIrreflexive | src/main/java/komu/demodel/parser/java/JavaDependencyParser.java:32 | no key comes before itself in `compareTo` order |
| StringOrder.LessTransitive | src/main/java/komu/demodel/parser/java/JavaDependencyParser.java:32 | the `compareTo` order of keys is transitive |
| StringOrder.LessTotal | src/main/java/komu/demodel/parser/java/JavaDependencyParser.java:32 | two different keys are ordered one way or the other, so the `TreeMap` order is total |
| StringOrder.SupplementaryBeforeUpperBmp | src/main/java/komu/demodel/parser/java/JavaDependencyParser.java:32 | U+1D465 (units D835 DC65) sorts before U+FF58 although its code point is larger |
| StringOrder.AscendingDistinct | src/main/java/komu/demodel/parser/java/JavaDependencyParser.java:32 | an ascending key list holds no key twice |
| StringOrder.Insert | src/main/java/komu/demodel/parser/java/JavaDependencyParser.java:90-91 | putting a new key keeps the key list ascending and adds exactly that key |
| JavaParser.ReplaceChar | src/main/java/komu/demodel/parser/java/JavaDependencyParser.java:75 | String.replace: each occurrence of the character is replaced and nothing else changes |
| JavaParser.PrefixBefore | src/main/java/komu/demodel/parser/java/JavaDependencyParser.java:76-86 | the text before an index, or all of it for -1 |
| JavaParser.ModuleKey | src/main/java/komu/demodel/parser/java/JavaDependencyParser.java:75-86 | the key contains no `/` and no `$` and is no longer than the name |
| JavaParser.InnerClassSameKey | src/main/java/komu/demodel/parser/java/JavaDependencyParser.java:76-80 | an inner class has the key of its outer class |
| JavaParser.ClassNameDropped | src/main/java/komu/demodel/parser/java/JavaDependencyParser.java:83-86 | a class in a package has the package's dotted name as its key |
| JavaParser.DefaultPackageKeepsName | src/main/java/komu/demodel/parser/java/JavaDependencyParser.java:83-86 | a name without separators is its own key |
| JavaParser.KeysOf | src/main/java/komu/demodel/parser/java/JavaDependencyParser.java:75-86 | one key per name |
| JavaParser.KeysOfAt | src/main/java/komu/demodel/parser/java/JavaDependencyParser.java:75-86 | the key list holds the key of each name at its position |
| JavaParser.KeyCount | src/main/java/komu/demodel/parser/java/JavaDependencyParser.java:96-101 | the number of occurrences of a key, zero for an absent key |
| JavaParser.RecordedStrengths | src/main/java/komu/demodel/parser/java/JavaDependencyParser.java:96-101 | after recording a key list the strength to the current module is unchanged and every other module's rises by the number of its occurrences |
| JavaParser.RecordedExtended | src/main/java/komu/demodel/parser/java/JavaDependencyParser.java:88-93 | new map entries do not change what already recorded keys mean |
| JavaParser.RecordedNext | src/main/java/komu/demodel/parser/java/JavaDependencyParser.java:96-101 | one more recorded dependency extends the record by that key |
| JavaParser.VisitedFlags | src/main/java/komu/demodel/parser/java/JavaDependencyParser.java:59-60 | the program-module flag of each map entry |
| JavaParser.ProgramKeys | src/main/java/komu/demodel/parser/java/JavaDependencyParser.java:56-66 | exactly the keys of program modules, in ascending `String.compareTo` order (UTF-16 code units) |
| JavaParser.JavaDependencyParser.constructor | src/main/java/komu/demodel/parser/java/JavaDependencyParser.java:32-37 | an empty map and no current module |
| JavaParser.JavaDependencyParser.GetModule | src/main/java/komu/demodel/parser/java/JavaDependencyParser.java:74-94 | the module under the name's key; a new module is created and its key inserted in order only on the first occurrence |
| JavaParser.JavaDependencyParser.GetVisitedModule | src/main/java/komu/demodel/parser/java/JavaDependencyParser.java:68-72 | the module under the key, now marked as a program module |
| JavaParser.JavaDependencyParser.AddDependency | src/main/java/komu/demodel/parser/java/JavaDependencyParser.java:96-101 | the target's key is looked up first, on both paths: the map gains at most that key, and on its first occurrence a fresh, unvisited module named after it, inserted in order; without a current module a NullPointerException; a dependency on itself is not recorded; otherwise the strength to the target rises by one |
| JavaParser.JavaDependencyParser.Visit | src/main/java/komu/demodel/parser/java/JavaDependencyParser.java:108-118 | the visited module becomes current and a program module, with one inheritance recorded for the superclass and each interface; old entries stay, the only new keys are the visited one and the inherited names' keys, and every new module other than the visited one is named after its key and unvisited |
| JavaParser.JavaDependencyParser.AddInheritance | src/main/java/komu/demodel/parser/java/JavaDependencyParser.java:111-116 | one addDependency of the loop: the map gains at most the name's key, the modules added so far stay unvisited, and the strength changes as addDependency says |
| JavaParser.JavaDependencyParser.AddInheritances | src/main/java/komu/demodel/parser/java/JavaDependencyParser.java:111-116 | the loop records the dependencies on the given names in order; old entries stay, every new key is the key of one of the names, and every new module is named after its key and unvisited |
| JavaParser.JavaDependencyParser.VisitEnd | src/main/java/komu/demodel/parser/java/JavaDependencyParser.java:134-136 | the current module is cleared |
| JavaParser.JavaDependencyParser.GetModel | src/main/java/komu/demodel/parser/java/JavaDependencyParser.java:56-66 | a fresh model holding exactly the program modules, in ascending `String.compareTo` key order (UTF-16 code units) |
| Signatures.Match | src/main/java/komu/demodel/parser/java/SignatureUtils.java:16-17 | a match splits the signature into group 1 starting with `L` and free of `<` and `;`, and a shorter single-line group 2 |
| Signatures.MatchComplete | src/main/java/komu/demodel/parser/java/SignatureUtils.java:16-17 | every string of the pattern's shape matches with those groups |
| Signatures.NoAngleNoMatch | src/main/java/komu/demodel/parser/java/SignatureUtils.java:16-17 | a string without `<` does not match |
| Signatures.Pieces | src/main/java/komu/demodel/parser/java/SignatureUtils.java:34 | the pieces between semicolons contain no semicolon |
| Signatures.JoinPieces | src/main/java/komu/demodel/parser/java/SignatureUtils.java:34 | joining the pieces with `;` gives the text back |
| Signatures.PiecesJoin | src/main/java/komu/demodel/parser/java/SignatureUtils.java:34 | splitting joined pieces gives the pieces back |
| Signatures.DropTrailingEmpty | src/main/java/komu/demodel/parser/java/SignatureUtils.java:34 | String.split drops exactly the trailing empty pieces |
| Signatures.Split | src/main/java/komu/demodel/parser/java/SignatureUtils.java:34 | a text without `;` is its own only piece; otherwise the pieces without trailing empties |
| Signatures.WithSemicolons | src/main/java/komu/demodel/parser/java/SignatureUtils.java:34-36 | each piece gets `;` appended |
| Signatures.Descriptors | src/main/java/komu/demodel/parser/java/SignatureUtils.java:27-38 | without a match one descriptor per split piece |
| Signatures.DescriptorsEndWithSemicolon | src/main/java/komu/demodel/parser/java/SignatureUtils.java:27-38 | every descriptor produced ends with `;` |
| Signatures.ParseTypesFromGenericSignature | src/main/java/komu/demodel/parser/java/SignatureUtils.java:27-38 | the list is extended by Descriptors of the signature |
| Signatures.GetTypesFromGenericSignature | src/main/java/komu/demodel/parser/java/SignatureUtils.java:19-25 | a null signature gives the empty list; otherwise Descriptors |
| Signatures.DescriptorsOfGeneric | src/main/java/komu/demodel/parser/java/SignatureUtils.java:28-32 | a generic signature gives its raw type then the descriptors of its arguments |
| Signatures.DescriptorsOfPieces | src/main/java/komu/demodel/parser/java/SignatureUtils.java:33-36 | a non-matching text gives its pieces with `;`, trailing empties dropped |
| Signatures.OneArgument | src/main/java/komu/demodel/parser/java/SignatureUtils.java:27-38 | a raw type with one plain argument gives two descriptors |
| Signatures.TwoArguments | src/main/java/komu/demodel/parser/java/SignatureUtils.java:27-38 | a raw type with two plain arguments gives three descriptors in order |
| Signatures.NestedArguments | src/main/java/komu/demodel/parser/java/SignatureUtils.java:27-38 | a raw type whose second argument is itself generic gives five descriptors, the inner generic split at its semicolons |
| Signatures.ListOfString | src/test/java/komu/demodel/parser/java/SignatureUtilsTest.java:23-24 | `List<String>` gives the List then the String descriptor |
| Signatures.MapOfStringToInteger | src/test/java/komu/demodel/parser/java/SignatureUtilsTest.java:25-26 | `Map<String,Integer>` gives the Map, String and Integer descriptors |
| Signatures.NestedMapSize | src/test/java/komu/demodel/parser/java/SignatureUtilsTest.java:31-32 | the nested Map signature gives five descriptors |

## Left out

- **Swing and AWT.** Drawing, fonts, listeners and layout are not modelled: both
  `DependencyMatrixView` files, `MatrixDrawer`, `ModuleDetailsView`, `Main`,
  `FontMetricsProvider` and both `MatrixMetrics` files. `ChangeListenerList` and `addListener`
  become a notification counter (`changeEvents`).
- **The older `ui/DependencyMatrixViewModel.java`.** It calls `DependencyModel` methods that
  do not exist, so it is not modelled.
- **File and archive input.** `parseDirectory`, `visitFile`, `ClassReader`, the input sources
  and the file utilities are not modelled.
- **ASM decoding.**
  - The method, field and annotation visitors of the parser are not modelled.
  - `Type.getType`, `getClassName`, `getReturnType` and `getArgumentTypes` are not modelled.
  - The class visitor receives names that are already decoded.
  - `SignatureUtils` stops at descriptor strings.
- **Nested-signature names.** In the nested-signature test the model yields the descriptors
  `Ljava/util/Map<Ljava/lang/Integer;` and `>;` at indices 2 and 4. How ASM decodes them
  is not modelled, so `Signatures.NestedMapSize` states only the count.
- **Members of the newer `Module` base class.** `PackageModule` and `ClassModule` extend a
  `Module` class that is not part of this model. Its members are handled as follows:
  - `outgoingDependencies` is a function parameter.
  - `getDependencyStrength` and `getDependencies` of the tree are function parameters
    (`StrengthOf`, `DependencyLines`). An absent dependency list (null) is the empty list.
  - `getDepth`, `getRoot`, `getSelfAndAncestors` and `getAllModules` are not modelled.
  - The tree's `flushCaches` is not modelled.
- **Assumed behaviour of the newer `Module`.**
  - `Module.move(direction)` is taken to be the parent's `move(this, direction)`, and to do
    nothing for a module without a parent (`MatrixView.MovedAt`).
  - `new PackageModule("<classes>", this)` is taken to append itself to the parent's children,
    which is what the parent-registering constructor is for.
- **In-place tree mutation.** Tree modules are values (`ModuleTree.Node`) with an identity (`ModuleId`). A change made
  in place to a node reached from the view model is modelled as replacing every node with that
  identity (`TreeEdit.Replace`). Aliasing of one node under two parents is not modelled.
- **`<classes>` identity.** The `<classes>` package created by `normalizeTree` gets the identity
  `ClassesOf(parent)`. Java would give it a fresh object.
- **Tables snapshot.** `Dependencies.DependencyModel.SortModules` computes the ordering from a
  snapshot of the strength tables (`TablesOf`). This is the same ordering because sorting
  never writes a table.
- **Strength tables.** `FlatModules` keys the strength table by object reference, as
  `HashMap<Module,Integer>` does with the default `equals`.
- **TreeMap.** The parser's `TreeMap<String, Module>` is a key list in ascending
  `String.compareTo` order plus a map. The order compares UTF-16 code units, as Java strings
  hold them, not code points (`StringOrder.Less`).
- **Collections.min.** `Collections.min` is taken to return the first least element, as the
  JDK's left-to-right scan does. `Dependencies.CollectionsMin` states this.
- **Java `int` overflow is not modelled.** Weights, strengths, counters and the subtraction in
  `ModuleWithWeight.compareTo` use unbounded integers.
- **Floating point.** `double` arithmetic in `PackageMetrics` is modelled over `real`, without
  IEEE rounding.
- **Java assertions are disabled by default**, so the model does not check them:
  - `moveSelection` runs on with index -1 (`MatrixView.MissingSelectionMovesToRoot`);
  - `getAbstractness` does not check that abstract types do not outnumber types;
  - `addChild` does not check that the child is not null and names this package as its parent.
- FlatModules.Module.AddChild: requires that the child's modules do not include this module,
  so the children never form a cycle. Java's `getChildren().add` accepts any module; after a
  cycle `countLeafsUnder` recurses until a `StackOverflowError`, which is not modelled.
- JavaParser.JavaDependencyParser.AddInheritances: says the modules it adds are named after
  their keys and not visited, but not that they are fresh objects with empty strength tables.
  `AddDependency` states both for the one module it may add. Carrying freshness through the
  loop invariant made the loop too costly to prove.
- JavaParser.JavaDependencyParser.Visit: likewise does not state that the modules it adds for
  inherited names are fresh objects with empty strength tables.
- **Exception messages.** A `NullPointerException` raised by the JVM has the empty message in
  the model.
- **Selection outside the tree.** A selected identity that is not in the tree is treated like a
  leaf by open, close and sort.
- **Trivial records.** `Project`, `Dependency` and `ModuleType` are not modelled. The records
  `TypeType`, `MoveDirection` and `DependencyType` are plain datatypes in `Kinds`.
