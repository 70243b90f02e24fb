# Verified models of the expression compiler and four of its components

This project models, in Dafny, the code of the repository whose correctness rests on state,
recursion or bit arithmetic, and proves what that code promises. Each module models one component:

- `Exprs`: expressions of the embedded language, structural equality and structural hashing.
  An expression is a number, a terminal without equality, a by-value or by-reference wrapper, a
  node or a variant; its C++ type is its `Shape`.
- `Keys`: what structural equality, types and hashes come down to.
- `Dumping`: the prefix printer and a reader for its output.
- `Interning`: the graph builder that stores equal subtrees of one type once; a class over the
  source's `nodes`, `buckets` and `next_id`.
- `Traversal`: building a finished graph, its statistics and its topological order.
- `Dependencies`: the dependency analysis with its cycle detection.
- `Rewriting`: the rewrite rules and what one pass of each does to the meaning of an expression.
- `Passes`: bounded fixpoints, pipelines and presets, what they keep, and when they are stable.
- `Simplification`: trees do not grow, and operands come in order.
- `Variants`: the types of what the rules return.
- `ShiftReduction`: when a shift is worth the product or quotient it replaces.
- `Sections`: Catch2's section tracker and the loop that runs a test case.
- `SkipList`, `Tuning`, `Outliers`: Highway's packed circular list, the tuner over it and the
  trimming of cost samples.
- `NDArray`, `Allocation`: Highway's padded multi-dimensional array and aligned allocation.
- `BitSets`: Highway's two-level bit set.
- `Bits`, `Graphs`, `Sets`, `Wrappers`: words, directed graphs, finite sets and optional results,
  shared by the others.

Code that updates state is modelled by classes and loops proved against specification functions;
code that is recursion over templates is modelled by functions. All machine words are natural
numbers below their bound, with wrap-around written out, except that numbers inside expressions are
mathematical integers.

## What the proofs show about the code

Where the code and its comments or names disagree, the model follows the code:

- The order returned as the safe execution order lists dependents before their dependencies
  (`Dependencies.DependencyAnalyzer.GetSafeExecutionOrder`); it is a dependencies-first order only if
  there are no dependencies at all (`Dependencies.DependenciesFirstOnlyWithoutEdges`).
- The count of shared nodes of a fresh graph is always the number of nodes minus one
  (`Traversal.OnlyTheRootIsUsedOnce`): every node but the root is used at least twice, once when it
  is interned and once when its parent takes it up. It counts the nodes in more than one place
  correctly exactly if every node but the root is in more than one (`Traversal.SharingOvercounted`).
- Once a pass has returned a variant, later passes do nothing, so O1 applied to a sum or a product is
  a single pass (`Passes.O1AtTheRoot`), and a fixpoint of any rewrite pass is one
  application of it (`Passes.FixpointIsOnePass`).
- Replacing a division by a right shift changes the value exactly for negative dividends that are
  not divisible (`ShiftReduction.StrengthReductionMeaning`, and `ShiftReduction.O2Meaning` for O2).
- Multiplying by zero forgets a factor that has no value. `Rewriting.MulIdentityMeaning` says exactly
  which products lose one, `Passes.RunMeaning` and `Passes.PresetsMeaning` which pipelines do; the
  other arithmetic rules also keep whether there is a value (`Rewriting.TransformKeepsMeaning`).
- Two different tags without a seed of their own collide in the hash over any children
  (`Exprs.UnseededTagsCollide`).
- Printed text tells trees with integer leaves apart exactly up to the tags without a name
  (`Dumping.PrintsAlikeIffBlursEqual`); with names for all tags, exactly up to structural equality
  (`Dumping.PrintsAlikeIffEqual`).
- A comment in `aligned_allocator.h` says that a payload may have zero bytes; the code aborts.

## Model

| member | source | states |
|---|---|---|
| `Interning.DagBuilder.Intern` | include/edsl/lithe.hpp:1102-1168 | one call keeps the graph consistent (buckets index every node by its hash, no two stored nodes could be merged, every child id is smaller than its parent's, use counts are conserved), returns an id that stands for the expression, reuses an id exactly when a stored node of the same type is structurally equal, and then changes nothing but that node's use count; every other node only ever gains uses |
| `Interning.InternAll` | include/edsl/lithe.hpp:1102-1168 | after any run of calls on a new builder: no two stored nodes could be merged and children have smaller ids; any two calls returned one id exactly when type and structure agree, whatever the hashes, also for expressions that do not equal themselves; reading an id back gives an expression equal to the one interned (exactly if that equals itself); and every use count is twice the child slots plus the calls that returned the node |
| `Interning.DagBuilder.InternEach` | include/edsl/lithe.hpp:1102-1168 | any run of calls on any builder keeps it consistent, tells every two of its expressions apart exactly by type and structure, and earlier ids go on standing for their expressions |
| `Interning.DagBuilder.InternNew` | include/edsl/lithe.hpp:1130-1167 | when nothing stored matches, interning the children can never store the expression itself, so it is still new when its own node is added under the next id |
| `Interning.DagBuilder.InternChildren` | include/edsl/lithe.hpp:1139-1143 | the ids stand for the children in order, each call is accounted for, and every node added spells out fewer tree nodes than the parent |
| `Interning.DagBuilder.FindExisting` | include/edsl/lithe.hpp:1104-1128 | searching one hash bucket finds a match if and only if there is one in the whole graph, under any collisions |
| `Interning.DagBuilder.AddNode` | include/edsl/lithe.hpp:1149-1165 | the new node has the next id, the hash, expression and children given and one use; each child gains one use per slot; everything else is untouched |
| `Interning.DagBuilder.UseAll` | include/edsl/lithe.hpp:1160-1165 | one more use for every occurrence of an id, and no other change |
| `Interning.DagBuilder.constructor` | include/edsl/lithe.hpp:1094-1098 | an empty builder is consistent and its first id is 1 |
| `Interning.SameIdIffSame` | include/edsl/lithe.hpp:1102-1128 | two expressions are represented by one id exactly when their types and structures agree, whatever their hashes; the only other case is one expression that does not equal itself, held by its own node |
| `Interning.NewIdTellsApart` | include/edsl/lithe.hpp:1110-1127 | a call is told apart from every earlier one without any condition on the expressions: an old id is given out only for an expression that equals itself |
| `Interning.UnfoldGivesBack` | include/edsl/lithe.hpp:1149-1153 | reading an id back out of the graph alone gives an expression of the interned type, and one structurally equal to it exactly when no terminal without equality is held by value |
| `Interning.RepresentativesMerge` | include/edsl/lithe.hpp:1117-1122 | merging does not depend on which of several equal expressions was stored first |
| `Interning.SameImpliesComparable` | include/edsl/lithe.hpp:674-766 | only expressions that equal themselves are ever merged |
| `Interning.ChildCountsLess` | include/edsl/lithe.hpp:1139-1143 | a child's type spells out strictly fewer tree nodes than its parent's: why a child can never be the parent |
| `Interning.AddedConsistent` | include/edsl/lithe.hpp:1148-1165 | adding a node that merges with nothing keeps every invariant of the builder |
| `Interning.UsedConsistent` | include/edsl/lithe.hpp:1117-1122 | so does one more use of a stored node |
| `Interning.AddedCounted` | include/edsl/lithe.hpp:1148-1165 | use-count conservation: twice the child slots holding a node plus the calls that returned it and were not taken up by a parent |
| `Interning.AddedCountAt` | include/edsl/lithe.hpp:1160-1165 | the same for one older node, from its count before |
| `Interning.NoSlotForTheYoungest` | include/edsl/lithe.hpp:1139-1153 | no slot holds the node with the largest id |
| `Interning.HandedCalls` | include/edsl/lithe.hpp:1139-1167 | the calls made for children are taken up by their parent: what remains counts top-level calls only |
| `Traversal.BuildDag` | include/edsl/lithe.hpp:1171-1182 | the finished graph is maximally shared, its root stands for the expression, and every node but the root is used exactly twice per slot; hence the count of "shared" nodes is the number of nodes held by two slots or more plus the number held by one, which is all but the root |
| `Traversal.OnlyTheRootIsUsedOnce` | include/edsl/lithe.hpp:1059-1065 | the statistic does not measure sharing: it is always the number of nodes minus one |
| `Traversal.SharingOvercounted` | include/edsl/lithe.hpp:1059-1065 | measured against the nodes that more than one child slot holds, the statistic of a fresh graph is too high by the number of nodes that one slot holds; it is right exactly if every node but the root has two slots or more |
| `Traversal.SharedNodeCount` | include/edsl/lithe.hpp:1059-1065 | counts the nodes used more than once |
| `Traversal.TopoOrder` | include/edsl/lithe.hpp:1186-1215 | on any graph, cyclic or dangling: every reachable node exactly once and nothing else, the root last; on a ranked graph every child before its parents |
| `Traversal.Visit` | include/edsl/lithe.hpp:1192-1209 | the depth-first visit extends the list by what it newly reaches, closes the visited set under edges, keeps children first, and ends with its own node |
| `Traversal.InternedGraphsAreRanked` | include/edsl/lithe.hpp:1139-1153 | every interned graph is ranked by its ids and has no dangling child |
| `Exprs.EqualReflexive` | include/edsl/lithe.hpp:674-766 | structural equality is reflexive exactly when no opaque terminal is held by value |
| `Exprs.EqualSymmetric` | include/edsl/lithe.hpp:674-766 | and symmetric over every mix of nodes, wrappers, references and variants |
| `Exprs.EqualTransitive` | include/edsl/lithe.hpp:674-766 | and transitive, for expressions whose references look into one memory |
| `Keys.EqualIffSameKey` | include/edsl/lithe.hpp:674-766 | what equality comes down to: two expressions are equal exactly if both equal themselves and have one key, which keeps numbers whatever is around them, tags with the keys of the children, wrappers around anything else, and address and type of a reference to something that does not equal itself |
| `Keys.OpaqueByAddress` | include/edsl/lithe.hpp:717-763 | references to terminals without equality are equal exactly if type and address agree, whatever they hold; by value such terminals equal nothing |
| `Keys.ShapesTell` | include/edsl/lithe.hpp:1115-1118 | the types that lookup compares agree exactly if the expressions are of one make: the same number and user types, wrappers, tags and alternatives throughout |
| `Exprs.NumbersEqual` | include/edsl/lithe.hpp:725-763 | numbers compare by value through any number of wrappers and variants, and equal nothing else |
| `Exprs.PeelEqual` | include/edsl/lithe.hpp:677-687 | variants are transparent on either side |
| `Exprs.EqualImpliesSameHash` | include/edsl/lithe.hpp:930-961 | equal expressions have equal hashes |
| `Keys.HashGrows` | include/edsl/lithe.hpp:930-945 | a node's hash starts from its tag's seed and takes in one child after the other |
| `Keys.CombineUndone` | include/edsl/lithe.hpp:898-902 | combining exclusive-ors the old hash with the sum, in 64 bits, of the new one, a constant and two shifts of the old one |
| `Keys.LastChildShows` | include/edsl/lithe.hpp:898-945 | nodes that differ in their last child only collide exactly if those children do |
| `Keys.SeedsShared` | include/edsl/lithe.hpp:904-928 | four tags have a seed of their own and all others share one |
| `Exprs.UnseededTagsCollide` | include/edsl/lithe.hpp:904-928 | two different tags without a seed of their own give unequal expressions with one hash, over any children |
| `Dumping.PrintsAlikeIffEqual` | include/edsl/lithe.hpp:967-995 | unique readability: named tags and integer leaves print alike exactly when structurally equal, at any arity and depth |
| `Dumping.PrintsAlikeIffBlursSame` | include/edsl/lithe.hpp:967-995 | when any two expressions at all print alike: exactly when they are one once wrappers, variants, number types, unnamed tags and the contents of opaque terminals are forgotten |
| `Dumping.PrintsAlikeIffBlursEqual` | include/edsl/lithe.hpp:967-995 | when any two trees with integer leaves print alike, whatever their tags: exactly when they are structurally equal after every tag without a name is replaced by one of them |
| `Dumping.ParseBack` | include/edsl/lithe.hpp:967-995 | a reader of the prefix form, which knows decimal digits, the tag names, parentheses and one space before each child, gives back from every printed expression exactly what printing keeps of it, and leaves the text behind it |
| `Dumping.ReadBack` | include/edsl/lithe.hpp:967-995 | so a text that starts with a printed expression determines both what printing keeps of it and the rest of the text |
| `Dumping.BlurPrints` | include/edsl/lithe.hpp:967-995 | and forgetting these changes no printed character |
| `Dumping.EqualPrintsAlike` | include/edsl/lithe.hpp:967-995 | equal expressions print alike, whatever their tags and leaves |
| `Dumping.UnnamedTagsPrintAlike` | include/edsl/lithe.hpp:780-784 | an instance of the loss: two unnamed tags print alike over any children and are never equal |
| `Dumping.TagNamesUnique` | include/edsl/lithe.hpp:780-894 | each name is read as its tag; all tags without a name share the placeholder |
| `Dumping.IntTextMeaning` | include/edsl/lithe.hpp:983-986 | the text of an integer denotes it by the place values of its digits, has a sign exactly if it is negative, and no leading zero unless it is zero |
| `Dependencies.DependencyAnalyzer.HasCycle` | include/edsl/lithe.hpp:3385-3388 | true exactly when the recorded dependencies contain a directed cycle |
| `Dependencies.DependencyAnalyzer.GetSafeExecutionOrder` | include/edsl/lithe.hpp:3339-3356 | for every iteration order of the map: empty on a cycle; otherwise every expression once, dependents before what they depend on |
| `Dependencies.DependencyAnalyzer.TopologicalVisit` | include/edsl/lithe.hpp:3358-3383 | failing means a cycle; succeeding extends a duplicate-free, dependencies-first list by exactly what it visits and leaves the set of open visits as it was |
| `Dependencies.DependencyAnalyzer.AddDependency` | include/edsl/lithe.hpp:3321-3325 | adds one edge and the missing entries, and keeps both directions of every edge in agreement |
| `Dependencies.DependencyAnalyzer.EnsureEntry` | include/edsl/lithe.hpp:3295-3299 | a terminal gets an entry and no edges change |
| `Dependencies.DependencyAnalyzer.constructor` | include/edsl/lithe.hpp:3292-3293 | nothing is recorded at first |
| `Dependencies.LinkedMutual` | include/edsl/lithe.hpp:3321-3325 | after any addition `depends_on` and `depended_by` mirror each other |
| `Dependencies.ReversedOrder` | include/edsl/lithe.hpp:3354-3355 | the final reverse turns dependencies-first into dependents-first |
| `Dependencies.DependenciesFirstOnlyWithoutEdges` | include/edsl/lithe.hpp:3339-3356 | so the result is a dependencies-first schedule only if nothing depends on anything |
| `Graphs.TargetsFirstAcyclic` | include/edsl/lithe.hpp:3358-3383 | a complete list with targets first rules out every directed cycle |
| `Rewriting.TransformKeepsMeaning` | include/edsl/lithe.hpp:600-628 | whatever tree and evaluator: add-zero, constant folding, canonicalisation and the dead-subtree rule keep the value and also whether there is one; multiply-identity keeps every value there is |
| `Rewriting.RewriteKeepsMeaning` | include/edsl/lithe.hpp:657-668 | the same for one pass, which leaves terminals and variants alone |
| `Rewriting.EvaluateAnyArity` | include/edsl/lithe.hpp:545-567 | at any arity a node is worth what its tag makes of the values of all its children, in order |
| `Rewriting.UndefinedChild` | include/edsl/lithe.hpp:545-567 | and nothing if one of them is undefined |
| `Rewriting.ArithmeticMeaning` | include/edsl/lithe.hpp:1778-1806 | what the rules take for a number: one outside any variant and in at most one wrapper, and its value |
| `Rewriting.SumKeepsMeaning` | include/edsl/lithe.hpp:1511-1557 | a binary node under those rules is worth what it was, given operands worth what they were |
| `Rewriting.NegationKeepsMeaning` | include/edsl/lithe.hpp:1685-1752 | folding a negation keeps its value |
| `Rewriting.ProductKeepsMeaning` | include/edsl/lithe.hpp:1567-1669 | multiplication by zero or one, plain or wrapped, on either side keeps a defined product |
| `Rewriting.MulIdentityMeaning` | include/edsl/lithe.hpp:1567-1669 | exactly when multiply-identity keeps meaning: if the expression is defined, or is not a product that zero takes the place of, perhaps after multiplications by one |
| `Rewriting.UndefinedCollapses` | include/edsl/lithe.hpp:1567-1669 | an undefined expression becomes defined exactly if it is such a product, for every tree and evaluator |
| `Rewriting.MulIdentityForgets` | include/edsl/lithe.hpp:1567-1669 | a family of such products: an undefined factor times zero becomes zero |
| `Passes.RunKeepsMeaning` | include/edsl/lithe.hpp:1405-1424 | any nesting of such passes, pipelines and fixpoints with any limits keeps every defined value |
| `Passes.RunMeaning` | include/edsl/lithe.hpp:1405-1424 | exactly when any nesting of such passes keeps meaning, defined or not: all that can be lost is an undefined factor of a collapsing product at the root, and it is lost exactly if multiply-identity comes before constant folding |
| `Passes.OtherRun` | include/edsl/lithe.hpp:1405-1424 | whatever is not a product keeps its meaning, defined or not, and does not become a product |
| `Passes.ProductRun` | include/edsl/lithe.hpp:1405-1424 | what becomes of an undefined product: it stays one that behaves the same until the first of these two rules makes it a variant |
| `Passes.PresetsMeaning` | include/edsl/lithe.hpp:4037-4114 | exactly when O1 and the preset levels keep meaning, defined or not: every defined value is kept, and an undefined expression becomes defined only if it is a product at the root that collapses |
| `Simplification.TransformShrinks` | include/edsl/lithe.hpp:1511-1752 | no rule makes a tree larger (nodes and terminals counted as `tree::size` does), and add-zero, multiply-identity and constant folding shrink whatever they change |
| `Simplification.NodeShrinks` | include/edsl/lithe.hpp:1511-1752 | at one node each of the three shrinks the tree exactly if an operand gives it something to do, and otherwise gives the node back |
| `Simplification.WhatIsLeft` | include/edsl/lithe.hpp:1511-1752 | where there is something to do, add-zero and multiply-identity leave one of the operands as it became, and folding leaves a number |
| `Simplification.RunShrinks` | include/edsl/lithe.hpp:1405-1424 | no nesting of passes makes a tree larger |
| `Simplification.SizeAddsUp` | include/edsl/lithe.hpp:2159-2173 | a terminal and a childless node count one, and one child more adds its own size, at any arity and wherever it comes |
| `Simplification.CanonicalForm` | include/edsl/lithe.hpp:1804-1866 | the operands of a sum or product are permuted so that numbers come last and of two numbers the larger; a node changes exactly if they were not in order |
| `Simplification.CanonicalFormsMeet` | include/edsl/lithe.hpp:1804-1866 | two orders of the same operands end up the same exactly if the operands are one or their order is determined |
| `Variants.TransformTyped` | include/edsl/lithe.hpp:600-628 | whatever rule: a variant that comes out holds something of a type it lists |
| `Variants.RunTyped` | include/edsl/lithe.hpp:1405-1424 | and so after any nesting of passes |
| `Variants.ListedTypes` | include/edsl/lithe.hpp:1511-1752 | which types the variants of the simplifications list, and in which order |
| `Variants.TypeDetermined` | include/edsl/lithe.hpp:1511-1752 | the result type of add-zero, multiply-identity and folding depends on the type of the tree alone, not on the values in it |
| `Variants.CanonicalTypeDepends` | include/edsl/lithe.hpp:1812-1840 | canonicalisation is different: two sums of one type, with the numbers the other way round, come out with two types |
| `Passes.OptimizeAny` | include/edsl/lithe.hpp:1445-1465 | the bounded loop computes the fixpoint function, at least one application whatever the limit |
| `Passes.FixpointIterates` | include/edsl/lithe.hpp:1445-1465 | its result is the pass applied k times for some 1 <= k <= max(1, limit), where k is the limit or the first repetition, from the second run on, that changes nothing |
| `Passes.RewriteTwiceIsOnce` | include/edsl/lithe.hpp:657-668 | applying a rule's pass to its own result changes nothing |
| `Passes.FixpointIsOnePass` | include/edsl/lithe.hpp:1493-1507 | so a fixpoint of it is one application, for every limit, even on terminals that do not equal themselves |
| `Passes.O2IsOnePassEach` | include/edsl/lithe.hpp:4116-4128 | O2 is O1 followed by one strength reduction, for every limit |
| `Passes.OnlyNodesChange` | include/edsl/lithe.hpp:657-668 | whatever is not a node passes through every nesting of passes unchanged |
| `Passes.VariantsEndPipelines` | include/edsl/lithe.hpp:1411-1414 | once a pass has returned a variant, the remaining passes of its pipeline do nothing |
| `Passes.O1AtTheRoot` | include/edsl/lithe.hpp:4101-4114 | O1 on a sum is its add-zero pass alone, on a product its multiply-identity pass alone, and every other root comes out unchanged |
| `Passes.PresetsAtTheRoot` | include/edsl/lithe.hpp:4037-4080 | every preset level but the identity simplifies a sum by add-zero, a product by multiply-identity and a negation by constant folding, once, and gives every other root back |
| `Passes.FirstChange` | include/edsl/lithe.hpp:1411-1414 | a pipeline is the first of its passes that changes a root, if that makes it a variant |
| `Rewriting.PowerOfTwoExponent` | include/edsl/lithe.hpp:3690-3702 | the shift loop returns the exponent of a power of two, the exponent rounded down of any other positive number, and zero below two |
| `ShiftReduction.ReducedRoot` | include/edsl/lithe.hpp:3704-3771 | exactly the products with a power of two and the divisions by one become shifts, of the other operand as it was written and by the exponent; every other binary node comes back as it was |
| `ShiftReduction.StrengthReductionMeaning` | include/edsl/lithe.hpp:3704-3771 | exactly when the pass keeps meaning, defined or not: unless it reduces a division whose defined dividend is negative and not divisible |
| `ShiftReduction.UndefinedUnreduced` | include/edsl/lithe.hpp:3704-3771 | what is undefined stays undefined |
| `ShiftReduction.O2Meaning` | include/edsl/lithe.hpp:4116-4128 | exactly when O2 keeps meaning, whatever its limit: a defined expression unless such a division is reduced at the root, an undefined one unless it is a product at the root that collapses |
| `ShiftReduction.ShiftIsQuotient` | include/edsl/lithe.hpp:3749-3771 | an arithmetic right shift equals the truncating quotient exactly on those dividends |
| `ShiftReduction.QuotientTruncates` | include/edsl/lithe.hpp:3749-3771 | the quotient meant: the remainder is smaller than the divisor and has the sign of the dividend |
| `ShiftReduction.ShiftedMeaning` | include/edsl/lithe.hpp:3714-3730 | the shift node built is worth the product, or the quotient rounded down |
| `Bits.PowerOfTwoTest` | include/edsl/lithe.hpp:3683-3688 | `v > 0 && (v & (v - 1)) == 0` accepts exactly the powers of two, and the shift count then gives `v` back |
| `Bits.ShiftCountBounds` | dependencies/highway/hwy/aligned_allocator.h:209-212 | the halving recursion gives the exponent rounded down |
| `Bits.ShiftCountOfPower` | dependencies/highway/hwy/aligned_allocator.h:209-212 | and exactly the exponent of a power of two |
| `Bits.AndHighMask` | dependencies/highway/hwy/aligned_allocator.cc:97-102 | masking with `~(2^k - 1)` subtracts the remainder |
| `Sections.RunContext.RunTest` | dependencies/Catch2-3.9.0/extras/catch_amalgamated.cpp:5836-5857 | for every tree of distinctly located sections the run loop stops after exactly as many cycles as there are leaves, and cycle k enters exactly the sections on the path to the k-th leaf, in document order |
| `Sections.RunContext.RunCycle` | dependencies/Catch2-3.9.0/extras/catch_amalgamated.cpp:5837-5844 | one cycle enters the route of the next leaf and leaves the trackers as they should be with one more leaf done |
| `Sections.RunContext.RunBody` | dependencies/Catch2-3.9.0/extras/catch_amalgamated.cpp:6197-6223 | a body that is let in enters one route and ends the cycle if it has subsections; nothing outside it is touched |
| `Sections.RunContext.RunSection` | dependencies/Catch2-3.9.0/extras/catch_amalgamated.cpp:5930-5954 | a section runs if and only if the cycle is under way and it has leaves left; then one more leaf is done and the cycle is over |
| `Sections.RunContext.RunNext` | dependencies/Catch2-3.9.0/extras/catch_amalgamated.cpp:5930-5954 | one subsection more: the ones before it are settled for this cycle, the ones after it untouched |
| `Sections.RunContext.SectionStarted` | dependencies/Catch2-3.9.0/extras/catch_amalgamated.cpp:5930-5954 | registers the section, opens it if allowed, and stacks exactly the open ones |
| `Sections.RunContext.SectionEnded` | dependencies/Catch2-3.9.0/extras/catch_amalgamated.cpp:5999-6007 | closes and pops the innermost active section and nothing else |
| `Sections.RunContext.Acquire` | dependencies/Catch2-3.9.0/extras/catch_amalgamated.cpp:7115-7144 | finds or adds the child tracker and opens it unless the cycle is over or it is complete |
| `Sections.RunContext.Open` | dependencies/Catch2-3.9.0/extras/catch_amalgamated.cpp:7036-7041 | marks the tracker executing, makes it current and its ancestors executing children |
| `Sections.RunContext.OpenChild` | dependencies/Catch2-3.9.0/extras/catch_amalgamated.cpp:6995-7002 | marks upwards as far as the first ancestor already marked |
| `Sections.RunContext.Close` | dependencies/Catch2-3.9.0/extras/catch_amalgamated.cpp:7043-7071 | completes a tracker that ran no children or whose children are all complete, returns to the parent and ends the cycle |
| `Sections.ClosingCompletes` | dependencies/Catch2-3.9.0/extras/catch_amalgamated.cpp:7049-7068 | closing completes a tracker that ran no children or whose children are complete, and leaves every other as it is, one that needs another run included |
| `Sections.OpenStates` | dependencies/Catch2-3.9.0/extras/catch_amalgamated.cpp:6989-6991 | open means executing, executing children or in need of another run; complete means successful or failed |
| `Sections.CompleteWhenDone` | dependencies/Catch2-3.9.0/extras/catch_amalgamated.cpp:7056-7059 | all registered children are complete exactly when all leaves are done |
| `Sections.ClosingCounts` | dependencies/Catch2-3.9.0/extras/catch_amalgamated.cpp:7049-7070 | closing after a body counts exactly one more leaf |
| `Sections.OneMoreSubsection` | dependencies/Catch2-3.9.0/extras/catch_amalgamated.cpp:5930-5954 | stepping past a subsection keeps the account of which are settled |
| `Sections.RoutesDistinct` | dependencies/Catch2-3.9.0/extras/catch_amalgamated.cpp:5836-5857 | no two cycles take the same route |
| `Sections.EverySectionRuns` | dependencies/Catch2-3.9.0/extras/catch_amalgamated.cpp:5836-5857 | every section of the tree is entered by some cycle |
| `Sections.OnlySectionsRun` | dependencies/Catch2-3.9.0/extras/catch_amalgamated.cpp:5836-5857 | and nothing that is not a section of it ever is |
| `SkipList.PackedFields` | dependencies/highway/hwy/auto_tune.h:334-338 | reading any of the three fields of a packed word gives what was put there |
| `SkipList.NextUpdate` | dependencies/highway/hwy/auto_tune.h:340-346 | writing `next` changes neither `prev` nor the removed bit |
| `SkipList.PrevUpdate` | dependencies/highway/hwy/auto_tune.h:347-353 | writing `prev` changes neither `next` nor the removed bit |
| `SkipList.RemoveUpdate` | dependencies/highway/hwy/auto_tune.h:334-335 | marking a link removed changes neither index |
| `SkipList.MadeLink` | dependencies/highway/hwy/auto_tune.h:324-332 | a new link holds its neighbours modulo the size and is not removed |
| `SkipList.NextWithSkip.constructor` | dependencies/highway/hwy/auto_tune.h:288-293 | the initial ring refines the set of all positions |
| `SkipList.NextWithSkip.Next` | dependencies/highway/hwy/auto_tune.h:295-299 | the next larger live position, or the smallest if there is none |
| `SkipList.NextWithSkip.Skip` | dependencies/highway/hwy/auto_tune.h:303-311 | removes one position and keeps the ring; the last one cannot be removed |
| `SkipList.UnlinkedRing` | dependencies/highway/hwy/auto_tune.h:303-311 | the three writes of an unlink keep the whole ring in order, also when the two neighbours are one position |
| `SkipList.RejoinedNeighbours` | dependencies/highway/hwy/auto_tune.h:303-311 | after it every live position still has its right neighbours |
| `SkipList.SkippingJoins` | dependencies/highway/hwy/auto_tune.h:303-311 | taking a position out joins its neighbours and leaves every other pair alone |
| `SkipList.PrevUndoesNext` | dependencies/highway/hwy/auto_tune.h:337-338 | `Prev` inverts `Next` on live positions and a link is marked removed exactly when its position is not live |
| `Tuning.AutoTune.NotifyCost` | dependencies/highway/hwy/auto_tune.h:453-501 | one report: the next live candidate becomes current; the reported one is dropped exactly if there are enough rounds, its estimate exceeds the threshold and it is not the last; a round ends exactly at wrap-around, and every finished round measured each candidate it began with once, in increasing order |
| `Tuning.AutoTune.EndRound` | dependencies/highway/hwy/auto_tune.h:478-500 | from round `kMinSamples` on the threshold is five quarters of the least estimate, and exactly in round `3 * kMinSamples / 2 + 1` the candidate with it becomes the best |
| `Tuning.AutoTune.Cheapest` | dependencies/highway/hwy/auto_tune.h:483-491 | the least estimate below the highest number and the first candidate with it, or candidate 0 |
| `Tuning.AutoTune.NextConfig` | dependencies/highway/hwy/auto_tune.h:446-450 | the current index always names an unskipped candidate |
| `Tuning.AutoTune.Run` | dependencies/highway/hwy/auto_tune.h:453-501 | for every sequence of costs tuning ends with a winner after exactly 3 * kMinSamples / 2 + 1 rounds, hence after at most N * (3 * kMinSamples / 2 + 1) reports |
| `Tuning.AutoTune.BoundedCalls` | dependencies/highway/hwy/auto_tune.h:453-501 | between any two reports: a winner exists exactly if 3 * kMinSamples / 2 + 1 rounds are finished, and that bound on the reports holds, strictly while there is no winner |
| `Tuning.AutoTune.constructor` | dependencies/highway/hwy/auto_tune.h:429-435 | the first round begins at candidate 0 with all candidates live |
| `Tuning.LogAdvances` | dependencies/highway/hwy/auto_tune.h:467-479 | every step of the log keeps all finished rounds complete and each one among those its predecessor left |
| `Tuning.Advance` | dependencies/highway/hwy/auto_tune.h:467-479 | the round goes on with the next candidate or was complete |
| `Tuning.LogBounds` | dependencies/highway/hwy/auto_tune.h:453-501 | a round cannot take more reports than there are candidates |
| `Outliers.CostDistribution.RemoveOutliers` | dependencies/highway/hwy/auto_tune.h:147-184 | the kept values are one contiguous, nonempty part of the sorted sample around its middle: exactly those within five deviations of the median, or that trim if the deviation is zero |
| `Outliers.CostDistribution.KeptRange` | dependencies/highway/hwy/auto_tune.h:171-183 | the two scans stay in bounds and stop exactly at the first values within the bounds |
| `Outliers.CostDistribution.TrimBySkewness` | dependencies/highway/hwy/auto_tune.h:157-169 | the trim cuts off half of the sample, rounded down but at least two values: on the left three quarters of that if the lower end is further from the median, else one quarter, but at least one |
| `Outliers.CostDistribution.MoveToFront` | dependencies/highway/hwy/auto_tune.h:183-183 | the in-place move keeps the values and their order |
| `Outliers.CostDistribution.Median` | dependencies/highway/hwy/auto_tune.h:116-135 | sorts the prefix in place and returns its middle |
| `Outliers.MiddleMeaning` | dependencies/highway/hwy/auto_tune.h:132-134 | the median is the middle value or the mean of the two |
| `Outliers.MadMeaning` | dependencies/highway/hwy/auto_tune.h:137-143 | the deviation is the middle distance from the median or the mean of the two |
| `Outliers.CostDistribution.MedianAbsoluteDeviation` | dependencies/highway/hwy/auto_tune.h:137-143 | the median of the distances from the median |
| `Outliers.MiddleWithinMad` | dependencies/highway/hwy/auto_tune.h:171-181 | the middle values lie within one deviation of the median: both in-code assertions hold |
| `Outliers.MadZeroMeansMajority` | dependencies/highway/hwy/auto_tune.h:156-157 | the deviation is zero if and only if more than half of the values equal the median |
| `Outliers.TrimKeepsMiddle` | dependencies/highway/hwy/auto_tune.h:157-169 | what that trim leaves is nonempty, inside the sample and around the middle |
| `Outliers.TrimCutsTheLongerTail` | dependencies/highway/hwy/auto_tune.h:158-167 | the trim takes something off both ends, and more off the end further from the median, strictly so from six values on |
| `Outliers.SortedSorts` | dependencies/highway/hwy/auto_tune.h:119-130 | the specification of the library sort: sorted and a permutation |
| `NDArray.ComputeSizes` | dependencies/highway/hwy/aligned_allocator.h:448-465 | accepts a shape exactly if every product of trailing axes fits in 64 bits, and returns those products |
| `NDArray.DivisionDetectsOverflow` | dependencies/highway/hwy/aligned_allocator.h:455-461 | the test by division detects overflow exactly |
| `NDArray.RowsLaidOut` | dependencies/highway/hwy/aligned_allocator.h:429-441 | rows of different in-range indices are disjoint, lie inside the memory, and start at multiples of the padded inner length |
| `NDArray.RowsApart` | dependencies/highway/hwy/aligned_allocator.h:429-441 | different index tuples are at least one padded row apart, for any number of axes |
| `NDArray.RowMajor` | dependencies/highway/hwy/aligned_allocator.h:429-441 | rows lie in row-major order: of two index tuples the one that nested loops come to first ends at least one padded row before the other |
| `NDArray.RowInside` | dependencies/highway/hwy/aligned_allocator.h:429-441 | the last row still fits |
| `NDArray.WholeRows` | dependencies/highway/hwy/aligned_allocator.h:429-441 | offsets and memory size count whole padded rows |
| `NDArray.RoundUpMeaning` | dependencies/highway/hwy/base.h:2704-2714 | rounding up gives the next multiple, or zero exactly where the addition wraps around |
| `NDArray.PaddingCovers` | dependencies/highway/hwy/aligned_allocator.h:360-368 | the padded shape is the only one that leaves every axis but the innermost as it is and raises that one to the least multiple of the vector length that covers it; where the addition wraps around there is nothing left to allocate |
| `NDArray.AlignedNDArray.Create` | dependencies/highway/hwy/aligned_allocator.h:360-370 | construction succeeds exactly if the shape fits, raising its innermost axis does not wrap, and the padded shape fits and is not empty; the memory then has that shape |
| `NDArray.AlignedNDArray.Offset` | dependencies/highway/hwy/aligned_allocator.h:429-441 | the wrapping sum never wraps: it is the exact mixed-radix offset, and out-of-range indices are exactly the ones refused |
| `NDArray.AlignedNDArray.Row` | dependencies/highway/hwy/aligned_allocator.h:373-382 | a row starts at its offset in the padded layout and has the unpadded length |
| `NDArray.AlignedNDArray.Truncate` | dependencies/highway/hwy/aligned_allocator.h:411-419 | the row of every surviving index tuple starts where it did and lies inside its old span, and the smaller array is as well formed |
| `Allocation.AlignedAllocator.AllocateAlignedBytes` | dependencies/highway/hwy/aligned_allocator.cc:69-115 | a request aborts, fails or succeeds exactly as its size and the base allocator say; the block has room for the alias distance, the gap and the payload, and the payload starts behind the next alias boundary by the gap: the next place in turn, or one alignment where that is zero; it is apart from all others, every live header stays intact and no earlier payload loses a byte |
| `Allocation.AlignedAllocator.FreeAlignedBytes` | dependencies/highway/hwy/aligned_allocator.cc:117-154 | freeing hands back exactly the block the base allocator gave, and tells the deleter the size asked for |
| `Allocation.AlignedAllocator.AllocateAlignedItems` | dependencies/highway/hwy/aligned_allocator.h:214-228 | fails without effect if the byte count overflows, otherwise does what the byte count asks for, and keeps every earlier payload's bytes |
| `Allocation.AlignedAllocator.NextAlignedOffset` | dependencies/highway/hwy/aligned_allocator.cc:57-65 | the offset is an aligned place below the alias distance, the first one is zero, and the next call gives the next place, or zero once that would reach the alias distance |
| `Allocation.AlignedAllocator.NextAlignedOffsets` | dependencies/highway/hwy/aligned_allocator.cc:57-65 | any run of calls gives the places in turn, also where the counter wraps around |
| `Allocation.EachPlaceOnce` | dependencies/highway/hwy/aligned_allocator.cc:57-65 | as many calls in a row as there are places use every multiple of the alignment below the alias distance exactly once |
| `Allocation.NextInTurn` | dependencies/highway/hwy/aligned_allocator.cc:57-65 | counting modulo 2^64 does not disturb the turn |
| `Allocation.PlatformConstants` | dependencies/highway/hwy/aligned_allocator.cc:36-48 | the constants of each platform: the alignment exceeds the header, and the alias distance is a power of two that holds eight aligned places on x86 and one elsewhere |
| `Allocation.AlignedAllocator.WritePayload` | dependencies/highway/hwy/aligned_allocator.cc:107-112 | a write inside any payload changes that byte only and leaves every header of a live allocation intact |
| `Allocation.AlignedAllocator.constructor` | dependencies/highway/hwy/aligned_allocator.cc:57-58 | nothing is handed out at first |
| `Allocation.PayloadIsPlaced` | dependencies/highway/hwy/aligned_allocator.cc:97-110 | header and payload lie inside the block and the payload is aligned, for every block address and offset |
| `Allocation.AddressAsAsked` | dependencies/highway/hwy/aligned_allocator.cc:77-104 | size and address are those just described, for every block address and counter |
| `Allocation.AlignedUpMeaning` | dependencies/highway/hwy/aligned_allocator.cc:97-102 | the mask rounds up past the block's start, by at most the alias distance |
| `Allocation.HeaderWritten` | dependencies/highway/hwy/aligned_allocator.cc:107-112 | both header words read back, and no byte outside the header changes |
| `Allocation.ReadBack` | dependencies/highway/hwy/aligned_allocator.cc:111-112 | a word written to memory byte by byte reads back |
| `Allocation.SoundWithOneMore` | dependencies/highway/hwy/aligned_allocator.cc:89-112 | a block apart from the others brings a payload at a new address and destroys no header |
| `Allocation.OtherPayloadsStay` | dependencies/highway/hwy/aligned_allocator.cc:107-112 | writing the header of a new payload changes no byte of the others |
| `Allocation.SoundAfterPayloadWrite` | dependencies/highway/hwy/aligned_allocator.cc:107-131 | nor does any write to a payload |
| `Allocation.SizeFits` | dependencies/highway/hwy/aligned_allocator.cc:85-89 | the size asked of the base allocator does not wrap, and a zero offset makes room for the header |
| `Allocation.ItemCheckIsExact` | dependencies/highway/hwy/aligned_allocator.h:218-226 | shifting or dividing back detects every overflow of the byte count and nothing else |
| `BitSets.BitSet4096.Set` | dependencies/highway/hwy/bit_set.h:315-322 | adds one member and keeps the summary exact |
| `BitSets.BitSet4096.Clear` | dependencies/highway/hwy/bit_set.h:331-340 | removes one member and keeps the summary exact |
| `BitSets.BitSet4096.SetNonzeroBitsFrom64` | dependencies/highway/hwy/bit_set.h:326-329 | adds the members the argument stands for |
| `BitSets.BitSet4096.Get` | dependencies/highway/hwy/bit_set.h:342-347 | membership |
| `BitSets.BitSet4096.Any` | dependencies/highway/hwy/bit_set.h:349-350 | the summary alone tells whether there is any member |
| `BitSets.BitSet4096.All` | dependencies/highway/hwy/bit_set.h:352-357 | exact for every size, multiples of 64 or not |
| `BitSets.BitSet4096.First` | dependencies/highway/hwy/bit_set.h:359-365 | the smallest member |
| `BitSets.BitSet4096.First0` | dependencies/highway/hwy/bit_set.h:366-379 | the smallest number that is not a member, found in bounds |
| `BitSets.BitSet4096.Get64` | dependencies/highway/hwy/bit_set.h:381-382 | the members below 64 |
| `BitSets.BitSet4096.Foreach` | dependencies/highway/hwy/bit_set.h:387-392 | every member once, in ascending order |
| `BitSets.BitSet4096.Count` | dependencies/highway/hwy/bit_set.h:394-399 | the number of members |
| `BitSets.BitSet4096.constructor` | dependencies/highway/hwy/bit_set.h:402-405 | empty at first, for every size up to 4096 |
| `BitSets.SetKeeps` | dependencies/highway/hwy/bit_set.h:315-322 | setting the bit and the summary bit keeps the two levels consistent and adds exactly that member |
| `BitSets.ClearKeeps` | dependencies/highway/hwy/bit_set.h:331-340 | clearing them keeps it too, whether or not the word becomes empty |
| `BitSets.OrKeeps` | dependencies/highway/hwy/bit_set.h:326-329 | so does combining a whole word |
| `BitSets.FirstMeaning` | dependencies/highway/hwy/bit_set.h:359-365 | the lowest bit of the lowest nonempty word is the smallest member |
| `BitSets.First0Meaning` | dependencies/highway/hwy/bit_set.h:366-379 | the lowest clear bit of the first word that is not full is below the size and the smallest missing number |
| `BitSets.FullMeaning` | dependencies/highway/hwy/bit_set.h:352-357 | a set is full if and only if every word is in use and the count is the size |
| `BitSets.CountAllWords` | dependencies/highway/hwy/bit_set.h:394-399 | skipping empty words loses no member |
| `BitSets.VisitOneWord` | dependencies/highway/hwy/bit_set.h:387-392 | visiting the next nonempty word extends the ascending list by exactly its members |
| `BitSets.ForeachBit` | dependencies/highway/hwy/bit_set.h:79-86 | the bits of one word once each, in ascending order |
| `BitSets.SetBitMeaning` | dependencies/highway/hwy/bit_set.h:35-39 | sets one bit of a word and no other |
| `BitSets.ClearBitMeaning` | dependencies/highway/hwy/bit_set.h:46-49 | clears one bit of a word and no other |
| `BitSets.GetBitMeaning` | dependencies/highway/hwy/bit_set.h:51-54 | tests one bit |
| `BitSets.ClearLowest` | dependencies/highway/hwy/bit_set.h:83-83 | `w & (w - 1)` clears the lowest set bit and no other |
| `BitSets.PopCountIsSize` | dependencies/highway/hwy/base.h:2837-2864 | the population count is the number of members |

## Left out

- Numbers inside expressions: floating point, overflow and mixed signedness are not modelled; a terminal is a mathematical integer with a type.
- Null references, and memory that changes while a builder is in use: references are valid, and one type at one address is one object throughout (`Exprs.InMemory`).
- The hash of an integer is a parameter, any function of the value alone; so is the digest of a terminal without equality.
- C++ value categories, moves, reference capture, concepts, operator overloads and return types: each rule gives the value its branch returns, also where the branches of one rule have different variant types. A child slot that is a C++ reference is a child.
- A variant in the model carries its list of alternatives; which alternative is active is not part of its type, as in C++.
- Interning.DagBuilder.Intern: the operation name stored with a node is not modelled; no decision depends on it.
- `compiler::optimize`, which compares with an expression already moved from, and `rewrite_fixpoint`.
- `memoize_pass` and `dag_constructor`: both look up by hash alone, so they agree with the plain passes only in the absence of collisions.
- `emit::evaluate` on a graph, which evaluates the root expression again, and the printer for graphs.
- `constant_propagation`, the enhanced canonicalisation, `transform_pass`, `trace_pass`, pattern matching, the intermediate-representation builders and the back ends of `lithe.hpp`; the tree utilities other than `tree::size`.
- The set of live subtree hashes that the dead-subtree rule collects: nothing reads it.
- Dependencies.DependencyAnalyzer.AddDependency: control, anti- and output-dependency flags are not modelled, and `on_node` is the sequence of additions it makes.
- Dependencies.DependencyAnalyzer.TopologicalVisit: the two sets passed by reference are parameters and results; the map and its sets are iterated in an arbitrary order. The same holds for Traversal.Visit and its captured set and list.
- Sections.RunContext.RunTest: filters, generators, failing or throwing tests, skipping and aborting are not modelled, nor are reporters, assertion counts and timing. Siblings have distinct locations.
- Sections.RunContext.Close: the loop that closes children still open serves generators and does not arise without them.
- Trackers are named by their path of locations in a map instead of being objects with parent pointers; aliasing between trackers is not captured.
- Tuning.AutoTune.NotifyCost: the estimate of each candidate's cost is an arbitrary number per call instead of the state of a `CostDistribution`; its online phase and square roots are not modelled. The pointer to the best candidate is an index, and the candidates are given to the constructor.
- Outliers.CostDistribution.RemoveOutliers: values are real numbers, so rounding is not modelled, and the library's sort is known by its result only.
- NDArray.AlignedNDArray.Create: the contents of the buffer, failing allocations and the conversion from elements to bytes are not modelled; an empty array aborts in the allocator.
- NDArray.AlignedNDArray.Truncate: the check that no axis grows exists in debug builds only and is a precondition here, as the comment demands.
- Allocation.AlignedAllocator.AllocateAlignedBytes: the base allocator is a function that promises blocks apart from the live ones; the shared atomic counter is used by one thread. Constants are those of generic, x86 and RISC-V targets.
- Allocation.AlignedAllocator.FreeAlignedBytes: the deleter's effect on the items and an invalid pointer are not modelled.
- `BitSet`, `AtomicBitSet`, cache control and the rest of Highway; bit intrinsics are given by their specification.
- BitSets.BitSet4096.Foreach: the visited indices are returned as a list instead of being passed to a callback that might change the set.
- Catch2's reporters, command line, streams, signals, random numbers and benchmark statistics, and `include/utils/meta.hpp`.
