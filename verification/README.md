# Firewall rule analysis on decision diagrams: a verified model

A firewall policy is analysed with binary decision diagrams: packets are assignments of Boolean variables,
sets of packets are nodes of one shared table, and every question about rules is answered by comparing node
numbers.  This project models that engine from the node table up to the anomaly reports, and proves that each
layer computes what it is for.

- **Node table and operators** (`Table`, `Kernel`, `Meaning`, `ApplyOps`, `IteOps`, `Quantification`, `QuantOps`,
  `Substitution`, `SubstOps`, `CareSet`, `CareOps`, `Counting`, `CountOps`).  `Kernel.Kernel` is the state of the
  package: the growing node table, the six direct-mapped caches, the registers and the variable table.  Its
  invariant says that the table is ordered, reduced and shared and that every live cache entry is the right
  answer of the operator its id names; only counts that were made for fewer variables are excepted.  Each operator is a recursive method over that state, overwriting cache
  slots as it goes; it keeps the invariant, and its result is specified by what it evaluates to under every
  assignment.  An assignment is the set of true variables.
- **Bit vectors** (`BitVectors`, `BitSlices`, `BvecOps`, `Division`, `FixedDivision`, `BvecProducts`).  A vector of
  nodes is a number under every assignment, and each circuit is proved to be the arithmetic it is named after.
- **Files** (`Records`, `SaveOps`, `LoadTable`, `BddIo`).  A saved file has a meaning of its own, which saving
  produces and loading preserves.
- **Policies** (`Mnodes`, `Domains`, `Layout`, `Policy`, `Analyzer`, `Comparator`, `Firewalls`, `Silence`).  `Policy` is
  first-match filtering on sets of packets; the analyzer and the comparator work on nodes and are proved against
  it.  `Firewalls` loads the rules, and shows that the ids the analyzer relies on are distinct; `Silence` is about
  the analyzer when it is given other lists.
- **Stand-alone algorithms** (`Resolver`, `PoolCycles`, `Wildcards`, `UInt128`, `Limbs`, `Numerals`, `BitMasks`,
  `Prefixes`).
- `Powers` and `Options` are small helpers.

Methods that change the kernel say what they keep with `Kept` (the old table is a prefix of the new one,
variables and pairs stay), `Grown` (also the registers stay) and `Widened` (there may be more variables).

`dafny verify dfyconfig.toml` checks the project.

## Model

| member | source | states |
|---|---|---|
| `Table.Canonical` | dep/buddy/buddy/kernel.c:1281-1372 | two nodes of an ordered, reduced, shared table have the same index exactly when they stand for the same Boolean function |
| `Table.Independence` | dep/buddy/buddy/kernel.c:1281-1372 | a node depends on no variable above its own level |
| `Kernel.Kernel.constructor` | dep/buddy/buddy/kernel.c:176-242 | a new kernel has the two constants, no variables, no pairs and empty caches |
| `Kernel.Kernel.AddVariable` | dep/buddy/buddy/kernel.c:352-379 | one more variable: its two nodes are new, the constants move down a level, every pair sends the variable to itself; every node, pair and cache entry stays right, except counts |
| `Kernel.Kernel.SetVarNum` | dep/buddy/buddy/kernel.c:297-382 | the number of variables is the one asked for, with the two range errors; nodes and pairs stay; counts become stale exactly when variables are added over a count that is on file |
| `Kernel.Kernel.IthVar` | dep/buddy/buddy/kernel.c:897-906 | the node of a defined variable, and an error with the constant false for any other number |
| `Kernel.Kernel.NithVar` | dep/buddy/buddy/kernel.c:923-932 | the negated node of a defined variable, and an error otherwise |
| `Kernel.Kernel.MakeNode` | dep/buddy/buddy/kernel.c:1281-1372 | equal children are returned themselves; otherwise the one node for level, low and high, which branches on that variable; the table stays ordered, reduced and shared, and every cache entry stays right |
| `Kernel.Promote` | dep/buddy/buddy/kernel.c:297-382 | growing the table by nodes or by variables invalidates no live entry of the six caches and no pair, except counts when there are more variables |
| `Substitution.WidenReplace` | dep/buddy/buddy/pairs.c:116-131 | a renaming that succeeded is still right, and still succeeds, when the pair is resized for more variables |
| `Substitution.WidenVecCompose` | dep/buddy/buddy/pairs.c:116-131 | so is a simultaneous substitution |
| `Kernel.NewTable` | dep/buddy/buddy/cache.c:45-59 | a new cache table has no live slot |
| `Kernel.Reset` | dep/buddy/buddy/cache.c:89-94 | every slot of the table is marked empty and keeps the rest of its contents |
| `Kernel.Kernel.ResetCaches` | dep/buddy/buddy/bddop.c:221-229 | all six caches are cleared and keep their size; the kernel stays valid |
| `Kernel.Kernel.ResizeCaches` | dep/buddy/buddy/bddop.c:245-258 | all six caches get the new size and are empty; the kernel stays valid |
| `Kernel.Kernel.LookupApply` | dep/buddy/buddy/cache.h:64 | whatever occupies the slot of the shared cache is either not live or the right answer of not, of one of the ten operators or of simplify |
| `Kernel.Kernel.LookupMisc` | dep/buddy/buddy/cache.h:64 | a live entry of the miscellaneous cache is the right answer of constrain, of a restriction or, unless counts are stale, of the counter, told apart by its id |
| `Kernel.Kernel.NextGeneration` | dep/buddy/buddy/bddop.c:2774-2787 | after a new generation is started no variable is marked, even when the counter starts again |
| `Kernel.Kernel.NewPairId` | dep/buddy/buddy/pairs.c:74-88 | an id that no other pair has and under which nothing is on file; when the ids are used up all pairs are numbered anew and all caches are reset |
| `Kernel.Kernel.RenumberPairs` | dep/buddy/buddy/pairs.c:78-84 | the pairs get the ids from 0 on, the latest first, and keep their contents |
| `ApplyOps.TruthTable` | dep/buddy/buddy/bddop.c:72-84 | the table of results is the documented connective of each operator on each pair of constants |
| `ApplyOps.ShortcutIsApply` | dep/buddy/buddy/bddop.c:548-594 | every operand pair that is answered without recursion is answered with the operator's result, and only pairs of constants need the table |
| `ApplyOps.NotRec` | dep/buddy/buddy/bddop.c:426-459 | the complement, whatever the shared cache held before; terminates on levels |
| `ApplyOps.ApplyRec` | dep/buddy/buddy/bddop.c:540-639 | for all ten operators the result evaluates to the connective of the operands under every assignment, whatever the shared cache held before; the table and all caches stay right |
| `ApplyOps.ApplyHalves` | dep/buddy/buddy/bddop.c:610-628 | the three level cases split on the top variable and combine exactly the cofactors |
| `ApplyOps.Not` | dep/buddy/buddy/bddop.c:396-423 | negation with the argument check |
| `ApplyOps.Apply` | dep/buddy/buddy/bddop.c:500-537 | binary operators with the checks of both operands and of the operator code |
| `Meaning.ApplyStep` | dep/buddy/buddy/bddop.c:610-632 | branching on the combined cofactors is the operator on the operands |
| `Meaning.ConnectiveLaws` | dep/buddy/buddy/bddop.c:72-84 | four of the ten operators are the negations of others, and two exchange the operands |
| `IteOps.SplitIsCofactors` | dep/buddy/buddy/bddop.c:794-863 | each of the level cases of if-then-else splits on the topmost variable into exactly the cofactors of the three operands |
| `IteOps.IteRec` | dep/buddy/buddy/bddop.c:766-870 | if f then g else h under every assignment, in every level case and whatever the cache held; terminates on levels |
| `IteOps.Ite` | dep/buddy/buddy/bddop.c:732-763 | if-then-else with the checks of its three operands |
| `Quantification.CubeMeaning` | dep/buddy/buddy/bddop.c:2774-2796 | a positive cube is true exactly where all variables met along its high edges are |
| `QuantOps.Varset2Vartable` | dep/buddy/buddy/bddop.c:2774-2796 | exactly the variables of the set carry the current generation, and the last of them is recorded |
| `QuantOps.QuantRec` | dep/buddy/buddy/bddop.c:1692-1727 | for all, or exists, over exactly the variables of the set, under every assignment of the others |
| `QuantOps.Quantify` | dep/buddy/buddy/bddop.c:1546-1635 | bdd_exist and bdd_forall with their checks; the empty set quantifies nothing |
| `QuantOps.AppQuantRec` | dep/buddy/buddy/bddop.c:1932-2039 | the fused operator denotes the quantification of the operator's result; its short cuts and its fall-back to the plain operator included |
| `QuantOps.AppQuantify` | dep/buddy/buddy/bddop.c:1750-1863 | bdd_appex and bdd_appall with their checks |
| `QuantOps.FusedOrNot` | dep/buddy/buddy/bddop.c:1750-1863 | fusing returns the same node index as applying and then quantifying |
| `Quantification.FusedSameNode` | dep/buddy/buddy/bddop.c:1750-1863 | nodes with the two specifications are equal |
| `QuantOps.QuantIdFits` | dep/buddy/buddy/bddop.c:1564 | below 2^28 the id of a quantification tells its kind and its variable set |
| `QuantOps.AppQuantIdFits` | dep/buddy/buddy/bddop.c:1777-1778 | below 2^23 both packed ids of a fused quantification tell operator, kind and variable set |
| `QuantOps.PackedIdsAgree` | dep/buddy/buddy/bddop.c:1777-1778 | in 32-bit arithmetic the packed ids of two variable sets are equal exactly when the sets' indices agree modulo 2^24, so the bound is needed |
| `SubstOps.ComposeRec` | dep/buddy/buddy/bddop.c:1276-1331 | f with g for one variable, in every level case |
| `SubstOps.Compose` | dep/buddy/buddy/bddop.c:1236-1273 | composition with its three checks |
| `SubstOps.VecComposeRec` | dep/buddy/buddy/bddop.c:1389-1419 | simultaneous substitution: f evaluated where each variable has the value of its replacement |
| `SubstOps.VecCompose` | dep/buddy/buddy/bddop.c:1354-1386 | simultaneous substitution for every pair table |
| `SubstOps.Correctify` | dep/buddy/buddy/bddop.c:1186-1221 | if v then r else l as an ordered node wherever v belongs in the order; fails exactly when v is no variable or is tested by an operand |
| `SubstOps.ReplaceRec` | dep/buddy/buddy/bddop.c:1152-1183 | renaming of the variables; fails exactly when some node below collides: its variable becomes a constant, or one that a renamed child depends on |
| `SubstOps.Replace` | dep/buddy/buddy/bddop.c:1117-1149 | renaming with its check; the error is raised exactly when the renaming collides below r |
| `Substitution.NoCollision` | dep/buddy/buddy/bddop.c:1152-1221 | under an injective renaming neither renamed child depends on the renamed top variable |
| `Substitution.InjectiveFits` | dep/buddy/buddy/bddop.c:1152-1221 | a renaming that is injective on the variables of f, and makes none a constant, succeeds |
| `Substitution.NotInjective` | dep/buddy/buddy/bddop.c:1152-1221 | one renaming that is not injective succeeds on one node and fails on another |
| `SubstOps.NewPair` | dep/buddy/buddy/pairs.c:146-172 | one more pair, the identity; the contents of the others stay |
| `SubstOps.SetBddPair` | dep/buddy/buddy/pairs.c:217-237 | one replacement is set and the last level kept up to date, under an id not used before unless the ids wrap; errors change nothing, and the contents of the other pairs stay |
| `SubstOps.Varset2SignedVartable` | dep/buddy/buddy/bddop.c:2799-2830 | positive literals carry the generation and negative ones its opposite |
| `SubstOps.RestrictRec` | dep/buddy/buddy/bddop.c:941-981 | r with the literals of the cube fixed |
| `SubstOps.Restrict` | dep/buddy/buddy/bddop.c:901-938 | restriction with its checks |
| `Substitution.LiteralCubeMeaning` | dep/buddy/buddy/bddop.c:2799-2830 | a cube of literals is true exactly where its positive variables are true and its negative ones false |
| `CareOps.ConstrainRec` | dep/buddy/buddy/bddop.c:1030-1099 | f read at the projection onto the care set, in all level cases; the empty care set gives false; terminates on levels |
| `CareOps.Constrain` | dep/buddy/buddy/bddop.c:996-1027 | the generalized cofactor with its checks |
| `CareSet.ConstrainAgrees` | dep/buddy/buddy/bddop.c:1030-1099 | inside the care set nothing changes |
| `CareSet.ProjectInside` | dep/buddy/buddy/bddop.c:1030-1099 | the projection lands in the care set and fixes its points |
| `CareOps.SimplifyRec` | dep/buddy/buddy/bddop.c:1470-1531 | agrees with f on the care set, depends on no variable that f ignores, and is a constant whenever f is one on a care set that is not empty; sharing the cache of apply |
| `CareOps.Simplify` | dep/buddy/buddy/bddop.c:1436-1467 | simplification with its checks |
| `CareSet.SimplifyQuantified` | dep/buddy/buddy/bddop.c:1518-1523 | a care set above f may be replaced by its quantification |
| `Counting.CountIsModels` | dep/buddy/buddy/bddop.c:2465-2475 | the recursive count, scaled by the levels above the node, is the number of satisfying assignments |
| `CountOps.SatCountRec` | dep/buddy/buddy/bddop.c:2495-2524 | the memoised recursion returns the count in exact numbers; a count on file is returned as it is |
| `CountOps.SatCount` | dep/buddy/buddy/bddop.c:2465-2475 | the number of satisfying assignments over all variables, unless variables were added over a count that is on file |
| `CountOps.CountAgain` | dep/buddy/buddy/bddop.c:2465-2524 | a count repeated after variables were added is the old one, which is right exactly for the two constants |
| `Counting.WidenModels` | dep/buddy/buddy/kernel.c:297-382 | every added variable doubles the number of satisfying assignments of every node |
| `CountOps.AllSatRec` | dep/buddy/buddy/bddop.c:2406-2444 | delivers exactly the profiles of the walk, in order, from a profile array whose lower part may hold anything |
| `CountOps.AllSat` | dep/buddy/buddy/bddop.c:2382-2403 | the delivered profiles are pairwise disjoint cubes in order, their union is the set of satisfying assignments, and their sizes add up to the count |
| `Counting.ProfilesInOrder` | dep/buddy/buddy/bddop.c:2406-2444 | of two profiles the earlier has 0 and the later 1 where they part |
| `Counting.ProfilesExact` | dep/buddy/buddy/bddop.c:2406-2444 | the profiles below a node cover exactly its satisfying assignments that fit the prefix, each once |
| `Counting.WeightIsCount` | dep/buddy/buddy/bddop.c:2406-2444 | enumeration and counting agree at every node |
| `BvecOps.Add` | dep/buddy/buddy/bvec.c:605-654 | addition modulo 2^n under every assignment; empty and unequal operands |
| `BvecOps.Sub` | dep/buddy/buddy/bvec.c:675-726 | subtraction modulo 2^n under every assignment |
| `BitVectors.AddsStep` | dep/buddy/buddy/bvec.c:627-649 | one position with its carry extends an exact sum |
| `BitVectors.SubtractsStep` | dep/buddy/buddy/bvec.c:696-721 | one position with its borrow extends an exact difference |
| `BvecOps.Compare` | dep/buddy/buddy/bvec.c:1266-1417 | lth, lte and equ decide the order of the two numbers under every assignment; empty and unequal operands |
| `BvecOps.Build` | dep/buddy/buddy/bvec.c:46-70 | a vector of equal constants |
| `BvecOps.Con` | dep/buddy/buddy/bvec.c:160-179 | the vector of the low bits of a number |
| `BvecOps.Con128` | dep/buddy/buddy/bvec.c:193-226 | the vector of the low bits of a number given in two 64-bit halves |
| `BitSlices.ConstantVal` | dep/buddy/buddy/bvec.c:160-226 | a constant vector is its number modulo 2^n under every assignment |
| `BvecOps.Var` | dep/buddy/buddy/bvec.c:241-252 | the variables offset, offset + step and so on; an error if one is not defined |
| `BvecOps.Coerce` | dep/buddy/buddy/bvec.c:324-334 | cut off or padded with zeros at the top |
| `BvecOps.ShlFixed` | dep/buddy/buddy/bvec.c:1042-1069 | moved up, filled from below; a negative distance is an error |
| `BvecOps.ShrFixed` | dep/buddy/buddy/bvec.c:1154-1181 | moved down, filled from above; a negative distance is an error |
| `BitSlices.ShiftUpIs` | dep/buddy/buddy/bvec.c:1042-1069 | for every distance: what does not go over the top is multiplied by the power of two, and the fill bits are below it |
| `BitSlices.ShiftDownIs` | dep/buddy/buddy/bvec.c:1154-1181 | for every distance: the quotient by the power of two, and the fill bits above it |
| `BvecProducts.MulFixed` | dep/buddy/buddy/bvec.c:739-771 | multiplication by a constant modulo 2^n |
| `BvecProducts.Mul` | dep/buddy/buddy/bvec.c:784-832 | the exact product in as many bits as both operands have |
| `BvecProducts.Div` | dep/buddy/buddy/bvec.c:930-991 | true quotient and remainder; division by zero gives all ones and the dividend; the width errors |
| `Division.DivRowsStep` | dep/buddy/buddy/bvec.c:953-978 | one row keeps dividend = remainder + divisor * quotient and halves the bound of the remainder |
| `BvecProducts.DivRec` | dep/buddy/buddy/bvec.c:834-860 | the recursion does the steps of the shift-register division on the numbers |
| `BvecProducts.DivFixed` | dep/buddy/buddy/bvec.c:877-901 | for every positive constant the quotient by the constant reduced to n bits, and that remainder reduced to n - 1 bits |
| `FixedDivision.RunDivides` | dep/buddy/buddy/bvec.c:834-901 | n steps of the shift register divide |
| `FixedDivision.FixedExact` | dep/buddy/buddy/bvec.c:877-901 | the result is the true quotient and remainder for every dividend exactly when the constant is at most 2^(n-1) |
| `SaveOps.MarkCount` | dep/buddy/buddy/kernel.c:1220-1236 | marks every node below the root and counts each once |
| `SaveOps.Unmark` | dep/buddy/buddy/kernel.c:1239-1254 | clears every mark below the root |
| `SaveOps.SaveRec` | dep/buddy/buddy/bddio.c:421-443 | the records of all nodes below the root that have none yet, children first, root last |
| `BddIo.Save` | dep/buddy/buddy/bddio.c:396-418 | the header counts the records; one record per reachable inner node, children first; all mark bits are clear again |
| `BddIo.RecordCount` | dep/buddy/buddy/bddio.c:396-443 | there are as many records as reachable nodes |
| `BddIo.SavedValue` | dep/buddy/buddy/bddio.c:421-443 | the file by itself gives each saved key the meaning of its node |
| `LoadTable.LoadTable.constructor` | dep/buddy/buddy/bddio.c:512-521 | all records of the table are free and every chain is empty |
| `LoadTable.LoadTable.Add` | dep/buddy/buddy/bddio.c:567-578 | the table holds one more entry |
| `LoadTable.LoadTable.Get` | dep/buddy/buddy/bddio.c:581-591 | the data of the last entry with the key, or -1 |
| `BddIo.LoadRecord` | dep/buddy/buddy/bddio.c:545-561 | one record: an unknown child or a negative variable is a format error, a variable that is not defined its own error, otherwise the node means what the record says |
| `BddIo.LoadData` | dep/buddy/buddy/bddio.c:541-564 | succeeds exactly when all records are there and mention only what stands before them; the node of the last record |
| `BddIo.Load` | dep/buddy/buddy/bddio.c:490-538 | the same for whole files: more variables are added when the header asks for them, with the constants, the truncated files and the range error |
| `BddIo.LoadSaved` | dep/buddy/buddy/bddio.c:490-591 | loading what was saved gives the same function in any kernel, whatever its number of variables |
| `BddIo.RoundTrip` | dep/buddy/buddy/bddio.c:396-591 | in the table it came from, the same node |
| `Mnodes.IsAny` | src/model/mnode.cpp:40-43 | the id is the constant true exactly when the set holds every packet |
| `Mnodes.IsNone` | src/model/mnode.cpp:46-49 | the id is the constant false exactly when the set is empty |
| `Mnodes.IsSubset` | src/model/mnode.cpp:52-58 | true exactly when the set of a is contained in that of b |
| `Mnodes.IsSuperset` | src/model/mnode.cpp:61-64 | true exactly when it contains it |
| `Mnodes.IsDisjoint` | src/model/mnode.cpp:67-73 | true exactly when the sets share no packet |
| `Mnodes.Overlaps` | src/model/mnode.cpp:76-79 | true exactly when they share one |
| `Mnodes.EqualNodes` | src/model/mnode.cpp:82-88 | equal ids exactly for equal sets |
| `Mnodes.Compare` | src/model/mnode.cpp:97-116 | the one of the five relations that holds of the packets in the two sets |
| `Mnodes.RelationMeans` | src/model/mnode.cpp:97-116 | in terms of packets: equal, properly inside, properly around, nothing in common though neither is inside the other, or something in common and something of each outside |
| `Domains.NewMvalue` | src/model/mvalue.cpp:19-25 | the range is the whole domain exactly when comparing the bounds as vectors says so |
| `Domains.SameBound` | src/model/range.cpp:22-25 | two bounds are equal exactly when the equality circuit is the constant true |
| `Domains.Bound` | src/model/rangeimpl.h:56-82 | the vector of a bound, in one word or two halves |
| `Domains.MakeBdd` | src/model/mvalue.cpp:28-49 | true exactly on the assignments whose block value lies in the range, on all three paths |
| `Layout.InitBdd` | src/model/domains.cpp:51-75 | a kernel with all variables and one block of consecutive variables for each field |
| `Layout.FieldsFit` | src/model/domain.h:93-275 | each field takes exactly the values of its domain, and the address fields exactly the addresses that have a text |
| `Layout.BlocksDisjoint` | src/model/domains.cpp:69-74 | no variable belongs to two fields |
| `Layout.Independent` | src/model/domains.cpp:61-74 | whatever value each field is to have, one packet has them all |
| `Layout.RangesMeet` | src/model/mvalue.cpp:28-49 | ranges on all the fields are met by a common packet |
| `Analyzer.State.constructor` | src/model/state.cpp:15-22 | before any rule nothing is accepted or denied and everything remains |
| `Analyzer.OneMore` | src/model/state.cpp:25-41 | the rule moves the packets it matches from the open ones to those with its action, and no other |
| `Analyzer.State.Update` | src/model/state.cpp:25-41 | A, D and R are the packets that the rules so far allow, deny and leave open by first match |
| `Analyzer.Partition` | src/model/state.cpp:25-41 | every packet is in exactly one of the three |
| `Analyzer.FindOverlapping` | src/model/analyzer.cpp:269-278 | the preceding rules with the action that overlap, in order |
| `Analyzer.FindOtherIsSubset` | src/model/analyzer.cpp:257-266 | the preceding rules with the action that the rule contains, in order |
| `Policy.FindIsFound` | src/model/rulelist.cpp:250-262 | the search returns exactly the rules before the sentinel that qualify, in order |
| `Analyzer.CheckRule` | src/model/analyzer.cpp:155-178 | the verdict that the sets of the rule and of the state call for |
| `Analyzer.AnalyzeFullyMaskedRule` | src/model/analyzer.cpp:181-212 | shadowed, fully redundant, or both in part, with the rules involved |
| `Analyzer.AnalyzePartiallyMaskedRule` | src/model/analyzer.cpp:215-242 | generalization, partial redundancy, correlation or nothing, in that order |
| `Analyzer.CheckAnomaly` | src/model/analyzer.cpp:100-152 | a report with its verdict for every rule that has one and is not the last, or allows, or misses some packet, in order and no others; an unreported rule with a verdict is the last and denies what is left to it; a deny-all is missing exactly when some packet matches no rule |
| `Analyzer.ReportsExactly` | src/model/analyzer.cpp:118-133 | a report for each rule with a verdict, and no other |
| `Analyzer.PartlyMaskedReported` | src/model/analyzer.cpp:215-242 | of a partly masked rule: generalization is reported exactly when a rule with the opposite action lies inside it; else partial redundancy exactly when some of its packets had its action before and a rule with this action lies inside it; else correlation exactly when some packet had the opposite action before |
| `Analyzer.FullyMaskedReported` | src/model/analyzer.cpp:181-212 | shadowing is reported exactly when all packets of the rule had the opposite action before, full redundancy exactly when all had its own, and the mixed report exactly when each had one of the two and both occur |
| `Policy.FullyMasked` | src/model/analyzer.cpp:166-170 | fully masked is reported exactly when the rule matches something and all of it is decided before |
| `Policy.FullyMaskedRemovable` | src/model/analyzer.cpp:181-212 | deleting any of the fully masked rules, or all at once, changes the decision on no packet |
| `Policy.WithoutKeeps` | src/model/analyzer.cpp:181-212 | deleting leaves exactly the other rules, in order |
| `Analyzer.ReportedRemovable` | src/model/analyzer.cpp:118-133 | the same for any of the rules that the list of reports names as fully masked |
| `Policy.ShadowedMeans` | src/model/analyzer.cpp:185-190 | shadowed: every packet of the rule gets the opposite action; with distinct ids the rules named are exactly those with that action that overlap, and they match every packet |
| `Policy.FullRedundantMeans` | src/model/analyzer.cpp:192-195 | fully redundant: every packet gets the rule's action without it; with distinct ids the rules named are exactly those with that action that overlap, and they match every packet |
| `Policy.RedundantOrCorrelatedMeans` | src/model/analyzer.cpp:197-211 | both lists are not empty; the first names the overlapping rules with the rule's action, which match every packet that had it, the second does the same for the opposite action |
| `Policy.GeneralizationMeans` | src/model/analyzer.cpp:219-223 | generalization: the rule is partly masked, and the rules named are exactly those before it with the opposite action that lie inside it |
| `Policy.PartialRedundantMeans` | src/model/analyzer.cpp:225-231 | partial redundancy: some packets have the rule's action without it, exactly the rules with that action inside it are named, and none with the opposite action lies inside |
| `Policy.CorrelatedMeans` | src/model/analyzer.cpp:233-239 | correlation: exactly the rules with the opposite action that overlap are named, none lies inside, and together they match every packet that gets the opposite action |
| `Policy.SilenceIsSound` | src/model/analyzer.cpp:155-242 | where ids tell the rules apart, a rule without a verdict sees each of its packets decided with its own action |
| `Analyzer.SilentRule` | src/model/analyzer.cpp:118-133 | the same, from the list of reports |
| `Silence.SilenceIff` | src/model/analyzer.cpp:118-133 | given arbitrary lists of rules the analyzer's silence about rule n is to be trusted, whatever the rules match, exactly when no two rules before it share an id other than its own |
| `Silence.SharedIdMisleads` | src/model/analyzer.cpp:245-278 | every kernel with two variables can build rules with given ids, two of them shared, about which the analyzer is wrongly silent |
| `Firewalls.Firewall.AddRule` | src/model/firewall.cpp:48-55 | the rule comes last, and its id leads to it |
| `Firewalls.Firewall.GetRule` | src/model/firewall.cpp:106-123 | the last rule with the id, if there is one |
| `Firewalls.Firewall.Clone` | src/model/firewall.cpp:26-31 | a copy has the same rules in the same order |
| `Firewalls.Firewall.Clear` | src/model/firewall.cpp:34-39 | no rule is left and no id is known |
| `Firewalls.Firewall.SetStatus` | src/cli/fw/clifwoption.cpp:39-76 | enables or disables the rule with the id and changes nothing else; a negative or unknown id is an error |
| `Firewalls.AddRow` | src/ostore/firewallfactory.cpp:381-505 | a row becomes a rule exactly when its id is new, its action and its status are known and no group is empty |
| `Firewalls.RowMeans` | src/ostore/firewallfactory.cpp:395-417 | which words, in any mixture of cases, mean which action and which status |
| `Firewalls.LoadRules` | src/ostore/firewallfactory.cpp:54-74 | the rows up to the first unreadable one are added one by one, then the deny-all if it is asked for; the three counters |
| `Firewalls.LoadedExactly` | src/ostore/firewallfactory.cpp:54-74 | a row becomes a rule exactly when it is read, its words are known, no group is empty and no earlier such row has its id; the rule has the id, action and status that the row says; the order is that of the file |
| `Firewalls.DenyAllDecides` | src/ostore/firewallfactory.cpp:534-547 | with the deny-all at the end, a packet is decided as before, and denied where nothing decided it |
| `Firewalls.AddedUnique` | src/ostore/firewallfactory.cpp:387-390 | whatever the file holds, no two rules share an id, and none has the id of the deny-all |
| `Firewalls.Load` | src/cli/clicontext.cpp:93-102 | what was there before is cleared, the ids are distinct, and with the deny-all each packet is decided as the loaded rules decide it, or denied |
| `Firewalls.Filter` | src/model/rulelist.cpp:69-79 | the rules that satisfy the predicate, in order |
| `Firewalls.IdsToldApart` | src/model/firewall.cpp:42-45 | selecting the enabled rules, and filtering them, keeps the ids distinct |
| `Firewalls.CheckFirewall` | src/cli/fw/clifwcheck.cpp:177-200 | nothing about an empty list, otherwise the reports about the enabled and filtered rules; a rule that is neither skipped nor reported sees each of its packets get its action |
| `Firewalls.LoadAndCheck` | src/ostore/firewallfactory.cpp:54-74 | from any file to reports whose silence is sound, without a condition on the ids in the file |
| `Comparator.Acl` | src/model/firewall.cpp:42-45 | the enabled rules in order |
| `Comparator.ComputeBdd` | src/model/comparator.cpp:27-44 | set difference without a remaining set computes what first match allows and denies |
| `Comparator.CompareLists` | src/model/comparator.cpp:12-24 | the relations between what the two lists allow and between what they deny, each of the five in terms of the decisions on packets; equal twice exactly when the lists decide every packet alike |
| `Comparator.SameNodes` | src/model/comparator.cpp:27-44 | analyzer and comparator arrive at the same two nodes |
| `Policy.SameDecisionsIff` | src/model/comparator.cpp:12-24 | same decisions exactly when the same packets are allowed and the same denied |
| `Resolver.Resolve` | src/ostore/genericresolver.h:52-112 | the search with the explicit stack terminates and returns the recursive expansion, or fails where it does |
| `Resolver.ChainDepth` | src/ostore/genericresolver.h:64-76 | the chain is never longer than the number of pools and one |
| `PoolCycles.FailsOnCycle` | src/ostore/genericresolver.h:88-96 | it fails exactly when a cycle of pools can be reached from the root |
| `PoolCycles.Resolved` | src/ostore/genericresolver.h:52-112 | otherwise exactly the pools that can be reached, the known objects and the unknown names in them are delivered, every pool after all its known members and the root last |
| `Wildcards.Match` | src/tools/match.cpp:15-62 | terminates; a positive answer is right for every text; on a text without a star it is the declarative relation for every pattern |
| `Wildcards.MatchesIs` | src/tools/match.cpp:22-54 | a star matches any text, a question mark one character, any other character itself in either case |
| `Wildcards.ToLowerIs` | src/tools/match.cpp:25 | two characters are taken for the same exactly when they are equal or the two cases of one letter |
| `Wildcards.GreedyIsComplete` | src/tools/match.cpp:22-54 | remembering only the last star loses no match |
| `Wildcards.CorrectIff` | src/tools/match.cpp:22-61 | a text is matched correctly by every pattern exactly when it contains no star |
| `UInt128.PlusIsSum` | src/tools/uint128.cpp:298-300 | the sum modulo 2^128 |
| `UInt128.MinusIsDifference` | src/tools/uint128.cpp:308-310 | the difference modulo 2^128 |
| `UInt128.OrderIsOrder` | src/tools/uint128.cpp:276-288 | the comparisons are those of the numbers |
| `UInt128.ShiftLeftIs` | src/tools/uint128.cpp:202-222 | multiplication by a power of two modulo 2^128, for every distance |
| `UInt128.ShiftRightIs` | src/tools/uint128.cpp:229-249 | division by a power of two, for every distance |
| `Limbs.Multiply` | src/tools/uint128.cpp:317-361 | the product modulo 2^128; no column overflows and no carry is lost |
| `Numerals.Bits` | src/tools/uint128.cpp:470-488 | the number of binary digits |
| `Numerals.Divmod` | src/tools/uint128.cpp:384-414 | dividend = quotient * divisor + remainder with a smaller remainder; an error for zero |
| `Numerals.PartialStep` | src/tools/uint128.cpp:402-412 | the shifted quotient and remainder stay below 2^128 |
| `Numerals.Str` | src/tools/uint128.cpp:490-509 | the numeral in the base, padded with zeros; an error for other bases |
| `Numerals.NumeralMeans` | src/tools/uint128.cpp:490-509 | in every base from 2 to 16 the digits stand for the number, with no zero in front |
| `Numerals.InitDigits` | src/tools/uint128.cpp:77-113 | the number that the last 39 or 43 characters start with, modulo 2^128 |
| `Numerals.LargestFits` | src/tools/uint128.cpp:77-113 | as many characters are read as the largest number has digits |
| `Numerals.Init` | src/tools/uint128.cpp:22-51 | the same after leading spaces, in base 10 or 8 |
| `Numerals.PrintedIsRead` | src/tools/uint128.cpp:490-509 | a printed number, padded or not, stands for itself |
| `Numerals.PrintAndRead` | src/tools/uint128.cpp:22-113 | printing and reading in base 10 or 8 gives the number back |
| `BitMasks.BitCount` | src/model/ipv4range.cpp:18-29 | the number of set bits |
| `BitMasks.PowerOfTwoTestIs` | src/model/rangeimpl.h:91-113 | the test holds exactly for sizes that are powers of two, up to the full range |
| `BitMasks.MaskClears` | src/model/ipv4parser.cpp:87-90 | masking an address with a prefix mask clears the host bits |
| `Prefixes.ToString` | src/model/ipv4range.cpp:38-65 | the four forms of a printed range; the text is read back as the range exactly when the size is a power of two or the span is at least 1024 |
| `Prefixes.Ipv6ToString` | src/model/ipv6range.cpp:35-82 | the same for the wide type; a range in IPv4 format must fit, is printed as IPv4, and is read back by the IPv4 parser under the same condition |
| `Prefixes.PrefixDecoded` | src/model/ipv4parser.cpp:25-99 | an address with a prefix length is read, for every address and length, as the block from the address on; invalid when it runs over the end, when strict and the address is not the first of its block, or when the length is too large; a single address exactly at the full length |
| `Prefixes.DottedMask` | src/model/ipv4parser.cpp:76-99 | a mask in the form of an address is read like the prefix length that it stands for |
| `Prefixes.BoundsDecoded` | src/model/ipv4parser.cpp:49-63 | two addresses with a hyphen are read as the range between them, unless they are in the wrong order |
| `Prefixes.PrefixReadBack` | src/model/ipv4parser.cpp:25-99 | a printed prefix is read back as the same bounds; strictly, exactly when the lower bound is aligned to the size |
| `Prefixes.OtherFormsReadBack` | src/model/ipv6parser.cpp:26-98 | single addresses and two bounds are read back; the form with a plus sign is not understood |
| `Prefixes.PlusForm` | src/model/ipv4range.cpp:52-54 | the short form splits at the plus sign into the first address and the number of those that follow |
| `Prefixes.ReadBackIff` | src/model/ipv4parser.cpp:25-73 | a printed range is read back as its bounds exactly when its size is a power of two or it spans at least 1024 addresses after the first; strictly, exactly when a size that is a power of two is also aligned |
| `Prefixes.StrToNumReads` | src/tools/strutil.cpp:50-74 | a numeral is read as its number, or refused above the limit |
| `Prefixes.StrToNumIs` | src/tools/strutil.cpp:50-74 | spaces, a sign and digits are read as the number, exactly when nothing follows and it is within the limits |
| `Prefixes.SplitTwo` | src/tools/strutil.cpp:22-36 | two parts around one separator |
| `Prefixes.SplitSkips` | src/tools/strutil.cpp:22-36 | parts with nothing but blanks are left out |
| `Prefixes.ThreeParts` | src/model/ipv4parser.cpp:25-73 | more than two parts are refused |

## Left out

- Garbage collection, reference counts, node table resizing, dynamic reordering and its restart of operators: the table only grows and the variable order is the order of the variable numbers. The hash chains of the node table are a map from node to index.
- The error handler returning: the default handler ends the program (`dep/buddy/buddy/kernel.c:833-839`), so an error is an error result here and nothing is cached after it.
- `bdd_unique` and `bdd_appuni`, which do not treat skipped levels as they should and share a cache id with `bdd_appall`; `bdd_satcountset` and the logarithmic and path counters.
- CountOps.SatCountRec: counts in exact numbers, because the rounding of floating point is not modelled.
- CountOps.SatCount: exact numbers as well; nothing is promised while counts are stale, beyond what `CountOps.CountAgain` states.
- `bdd_resetpair`, which keeps the id of the pair and with it what was cached for the old contents, and `bdd_freepair`. Pairs are entries of the kernel's list and are named by their place in it.
- SubstOps.NewPair: fewer than 2^29 - 1 pairs exist at once, so that renumbering finds an id for each.
- SubstOps.SetBddPair: the same bound on the number of pairs.
- Kernel.Kernel.NewPairId: the same bound on the number of pairs.
- Kernel.Kernel.AddVariable: the two nodes are appended directly, because no node of the new level can be found, and each variable is complete before the next is added.
- QuantOps.Quantify: the node index of the variable set is below 2^28, because beyond it the packed cache ids are not told apart.
- SubstOps.Restrict: the same bound of 2^28.
- QuantOps.AppQuantify: the node index of the variable set is below 2^23; beyond, ids of different sets coincide (`QuantOps.PackedIdsAgree`).
- QuantOps.FusedOrNot: the same bound of 2^23.
- SubstOps.Varset2SignedVartable: asks for a generation counter that is not at its maximum, because the counter is only reset at half of the range and can be pushed past it by the other table.
- BvecProducts.MulFixed: a negative constant is left out; the recursion does not end for it.
- BvecProducts.DivFixed: an empty vector is left out; its top bit is read.
- Bit vectors are values, except in multiplication and division, where the accumulator and the shifted operand are changed in place in arrays. The symbolic shifts `bvec_shl` and `bvec_shr` are left out.
- BddIo.Load: a header with variables but without records is left out; the loader writes outside its table then.
- SaveOps.MarkCount: the mark bits are an array beside the node table.
- BddIo.LoadRecord: keys of records are not negative, as below.
- BddIo.LoadData: keys of records are not negative; a negative key would index the hash table outside its bounds.
- Resolver.Resolve: the root is a pool of the dictionary; the exception is an outcome, and what was collected before it is dropped.
- CountOps.AllSat: the handler is the list of the profiles that it is given.
- Kernel.Kernel.constructor: the prime that is chosen as the size of a cache is a parameter.
- Files, addresses as text, DNS, the command line, tables, the logger, CSV and TOML. The text of an address is a parameter with an assumed inverse (`Prefixes.Faithful`).
- How a rule builds its node from zones, addresses and services; a rule has its node here. Rules are told apart by their position in the list.
- Firewalls.AddRow: of the columns of a row only id, action and status are modelled; `readable` says that the others can be read, and `groups` is the node of the predicate, or nothing if one of its groups is empty. Interrupts, and the lists of unresolved names in the loader's status, are left out.
- Firewalls.CheckFirewall: the zone filter is any predicate on rules.
- `check_symmetry`, `check_any`, `check_deny` and packet tests; claims about removing partially redundant rules, which can fail.
- The signs of characters outside ASCII in wildcard matching; reading 128-bit numbers in bases 2 and 16; IPv4 masks in the form of an address that are no prefix masks.
- Where code and documentation differ the model follows the code: a star in the text defeats a star in the pattern (`Wildcards.CorrectIff`), division by a constant is exact only up to half of the range (`FixedDivision.FixedExact`), short ranges are printed in a form that is not read back (`Prefixes.ReadBackIff`), a count repeated after variables were added is the old one (`CountOps.CountAgain`).
