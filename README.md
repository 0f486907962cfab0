# Z-cut engine of PMTSim, modelled in Dafny

ZSolid takes a CSG tree of Geant4 solids and cuts it at a horizontal plane `zcut`.
Booleans combine operands, displacement wrappers hold translations, and the
primitives are ellipsoids, tubes and polycones. The pipeline:

1. Deep-clone the tree so the original is never touched.
2. Link every node to its parent, record depths, and list the nodes in six traversal
   orders (in, reverse in, pre, reverse pre, post, reverse post), each with a rank table.
3. Classify every node against the cut by the Z range of its solid in the tree frame.
   A leaf is INCLUDE, STRADDLE or EXCLUDE. A boolean is the bitwise OR of its operands.
4. Reshape each straddling primitive so that its lower Z bound is the cut. Then classify
   again, and look for a candidate root: a node classed exactly INCLUDE. The comment on
   the search names reverse preorder, but the code as written finds the first such node
   in preorder (see Findings).

Beside the engine, PMTSim builds its solids from names. `Extract` scans a name for
signed decimal numbers. The first number is the zcut (`GetMakerSolid`). A name that
carries `Ham_` loses four characters before the lookup (`getSolidPfx`).

The model keeps the tree in an arena: a sequence of nodes in which each child sits at
a smaller index than its parent. Pointers become indices.

- The modules `Csg`, `ZCut`, `Traversal`, `Classify`, `Cut`, `Reroot` and `Clone`
  describe each step as functions of the arena, with lemmas about them.
- The class `Engine.ZSolid` holds the arena and every table as fields. Its methods
  fill and change those fields as the C++ members do. Each method is proved against
  the function that specifies it. A constructor cannot fail, so the static method
  `Create` runs the constructor and then the assertions of the dump that `init` makes,
  and reports the first that fails.
- The module `PmtSim` holds the name handling, with `Extract` as a loop over the name.

Assertion failures become `Fatal(fault)` results.

The clone wraps the right operand of every boolean in a fresh displacement wrapper
(`BooleanClone`, PMTSim/ZSolid.cc:1226-1230). A wrapper is a leaf to `Left` and
`Right`. So in the cloned tree a boolean that is the right operand of another boolean is
opaque: the traversals, the classification, the cut and the candidate search all stop at
its wrapper and never reach its operands. Only the chain of left operands from the root
is walked into. The model follows the source here.

Four places in the code do not do what their own comments and names say. For each one
the model holds a member that follows the code as written, with a lemma that shows the
difference, and a corrected member. All four are recorded under Findings.

- **Candidate root.** The comment on `findCandidateRoot` names a reverse preorder
  search, and `findCandidateRoot_r` returns as soon as it meets a node classed exactly
  INCLUDE. But that `return` leaves only the current call, so the parent goes on to
  search its left operand. The candidate is therefore the first INCLUDE node in preorder.
- **`collectNodes`.** It passes 0 where `collectNodes_r` takes the query, and the query
  where it takes the depth.
- **`getSolidPfx`.** Its flag is named for a name that starts with `Ham_`, but the test
  finds `Ham_` anywhere in the name.
- **`Extract`.** Its comment promises to convert every group of digits and signs. But
  strtol does not move past a sign that no digit follows, so on such a name the loop
  never ends.

## Model

| member | source | states |
|---|---|---|
| Csg.Left | PMTSim/ZSolid.cc:364-367 | only a boolean solid has a first operand, stored below it; a wrapper or a primitive has none |
| Csg.Right | PMTSim/ZSolid.cc:368-371 | only a boolean solid has a second operand, stored below it |
| Csg.Moved | PMTSim/ZSolid.cc:389-398 | a node stands for a different solid exactly when it is a displacement wrapper, and that solid is stored below it |
| Csg.SameShapeSub | PMTSim/ZSolid.cc:738-774 | two arenas of the same shape have the same subtrees, the same reached nodes and the same tree property, so reshaping a leaf in place keeps the tree |
| Csg.LeavesApart | PMTSim/ZSolid.cc:750-774 | in a tree two different reached leaves never share the solid they move, so cutting one never touches the other |
| ZCut.TubsZRange | PMTSim/ZSolid.cc:1319-1323 | a tube spans minus to plus its half length, symmetric about 0; it succeeds iff the half length is positive |
| ZCut.PolyconeZRange | PMTSim/ZSolid.cc:1325-1337 | it succeeds iff the planes strictly increase and there is one; the range is two of the planes, contains every plane, and is proper with two or more planes |
| ZCut.CheckZPlanes | PMTSim/ZSolid.cc:1328-1333 | the plane loop passes iff the planes strictly increase |
| ZCut.GetPolyconeZRange | PMTSim/ZSolid.cc:1325-1337 | the loop-and-read version yields exactly PolyconeZRange |
| ZCut.IncreasingBounds | PMTSim/ZSolid.cc:1328-1336 | increasing planes lie between the first and the last, and two or more give first < last |
| ZCut.ZRange | PMTSim/ZSolid.cc:1303-1317 | a kind without a Z range aborts; an ellipsoid spans its bottom to its top cut; a tube's or two-plane polycone's range is proper |
| ZCut.ClassifyZCut | PMTSim/ZSolid.cc:601-609 | it aborts iff az1 <= az0; otherwise the class is INCLUDE iff zcut <= az0, STRADDLE iff az0 < zcut < az1, EXCLUDE iff zcut >= az1, never UNDEFINED |
| ZCut.ApplyZCutEllipsoid | PMTSim/ZSolid.cc:898-911 | it succeeds iff bottom <= cut < top; the new range is [cut, top] and no other parameter changes |
| ZCut.ApplyZCutPolycone | PMTSim/ZSolid.cc:925-943 | it succeeds iff the planes increase and there are exactly two; the first plane becomes the cut, the second stays, nothing else changes, and the range is [cut, second] |
| ZCut.TubsCut | PMTSim/ZSolid.cc:1036-1054 | the new half length and the centre shift place the tube's ends at the cut and at the old top; a cut at -hz leaves the tube as it was, a cut at hz leaves zero length |
| Traversal.Walk | PMTSim/ZSolid.cc:128-192 | a traversal from n lists n and only nodes stored at or below n |
| Traversal.WalkListsVisibleOnce | PMTSim/ZSolid.cc:128-192 | in a tree each of the six traversals lists every reached node exactly once, and nothing else |
| Traversal.RanksArePositions | PMTSim/ZSolid.cc:128-199 | on a list without repeats the rank table maps exactly the listed nodes, each to base plus its position |
| Traversal.ReversePreorderMirrorsPostorder | PMTSim/ZSolid.cc:163-182 | reverse preorder is postorder read backwards |
| Traversal.ReversePostorderMirrorsPreorder | PMTSim/ZSolid.cc:152-192 | reverse postorder is preorder read backwards |
| Traversal.ReverseInorderMirrorsInorder | PMTSim/ZSolid.cc:128-150 | reverse inorder is inorder read backwards |
| Traversal.ParentTableLinksOperands | PMTSim/ZSolid.cc:98-118 | the parent table has exactly the reached nodes as keys, gives the root no parent, links both operands of every reached boolean to it, and every parent is a boolean stored above its child |
| Traversal.DepthsStepDown | PMTSim/ZSolid.cc:120-126 | in a tree the depth table has exactly the reached nodes as keys, and both operands of a reached boolean sit one level below it |
| Traversal.MaxdepthIsDeepest | PMTSim/ZSolid.cc:411-419 | maxdepth bounds every recorded depth, and some reached node is that deep |
| Traversal.SameShapeTables | PMTSim/ZSolid.cc:738-774 | the walks, parent links, depths and maxdepth depend on the tree's shape only, so the tables initTree built still hold after the cut |
| Classify.TreeTranslationIsOwn | PMTSim/ZSolid.cc:1115-1150 | when every recorded parent is a boolean, the frame offset is the node's own wrapper translation, and it aborts iff that wrapper's rotation is not the identity |
| Classify.LeafClass | PMTSim/ZSolid.cc:525-553 | a leaf gets a class iff the solid it moves has a Z range; that class is the trichotomy of the range shifted into the tree frame against the cut |
| Classify.ClassifyIntoFrame | PMTSim/ZSolid.cc:499-556 | the pass changes no class entry outside the subtree it visits |
| Classify.ClassifyIntoComputes | PMTSim/ZSolid.cc:499-556 | the pass succeeds iff the value of the subtree is defined, and then returns it |
| Classify.ClassifyRecordsBoolean | PMTSim/ZSolid.cc:505-524 | after the pass every reached boolean is recorded with the value of its subtree |
| Classify.ClassifyRecordsLeaf | PMTSim/ZSolid.cc:525-553 | after the pass every reached leaf with a class is recorded with it under the solid it moves, and a leaf without one keeps the entry it had |
| Classify.ClassifyPropagatesOr | PMTSim/ZSolid.cc:505-524 | with no stale entries, every reached boolean holds the bitwise OR of what its operands hold |
| Classify.OperandRecorded | PMTSim/ZSolid.cc:499-556 | with no stale entries, any reached node reads back the value of its subtree |
| Cut.ApplyZCut | PMTSim/ZSolid.cc:854-874 | a successful cut keeps the arena's shape and changes only the leaf and the solid it moves |
| Cut.CutMeetsCut | PMTSim/ZSolid.cc:854-874 | a straddling leaf's frame offset is defined, and its cut fails iff it is a polycone without exactly two planes or a tube without a wrapper |
| Cut.CutIncluded | PMTSim/ZSolid.cc:854-1054 | a straddling leaf, once cut, spans [zcut, old top] in the tree frame and classifies INCLUDE |
| Cut.CutR | PMTSim/ZSolid.cc:750-774 | a successful cutTree_r keeps the arena's shape |
| Cut.CutRFrame | PMTSim/ZSolid.cc:750-774 | cutTree_r changes no node outside the subtree it visits |
| Cut.CutRLeaf | PMTSim/ZSolid.cc:750-774 | in a tree each reached leaf, and the solid it moves, end up as cutting that leaf alone in the original arena leaves them |
| Cut.LeafCutClass | PMTSim/ZSolid.cc:756-773 | a leaf recorded STRADDLE classifies INCLUDE after its step, and any other leaf is left as it was |
| Cut.CutConverges | PMTSim/ZSolid.cc:738-774 | after cutTree_r each leaf recorded STRADDLE classifies INCLUDE, and every other leaf classifies as before |
| Cut.CutTreeConverges | PMTSim/ZSolid.cc:738-745 | from an empty class table, once the first pass and the cuts succeed, the second classification succeeds and records every leaf that straddled as INCLUDE |
| Reroot.FirstIncludedAt | PMTSim/ZSolid.cc:795-823 | the position of the first node of a walk whose class is exactly INCLUDE, or the walk's length |
| Reroot.CandidateAsWrittenIsPreorderFirst | PMTSim/ZSolid.cc:795-823 | as written, the search yields the first exactly-INCLUDE node in preorder, or keeps the incoming candidate when there is none |
| Reroot.FindCandidate | PMTSim/ZSolid.cc:776-823 | the intended candidate is a reached node whose class is exactly INCLUDE |
| Reroot.CandidateIsReversePreorderFirst | PMTSim/ZSolid.cc:776-823 | the intended candidate is the first exactly-INCLUDE node of the reverse preorder |
| Reroot.NoCandidateMeansNoneIncluded | PMTSim/ZSolid.cc:786-823 | there is no candidate iff no reached node is exactly INCLUDE |
| Reroot.IntactLeaves | PMTSim/ZSolid.cc:499-556 | a subtree whose value has neither the STRADDLE nor the EXCLUDE bit has no reached leaf that straddles or lies below the cut |
| Reroot.CandidateSubtreeSurvives | PMTSim/ZSolid.cc:786-823 | with no stale entries, no reached leaf under the intended candidate straddles or lies below the cut |
| Reroot.AsWrittenCandidateSurvives | PMTSim/ZSolid.cc:786-823 | with no stale entries, the candidate the search as written finds is a reached node recorded exactly INCLUDE, and no reached leaf under it straddles or lies below the cut |
| Reroot.CollectedIsMatchingPostorder | PMTSim/ZSolid.cc:833-848 | collectNodes_r lists the leaves whose class equals the query, in postorder |
| Reroot.CollectedMembers | PMTSim/ZSolid.cc:833-848 | a node is collected iff it is a reached leaf whose class equals the query |
| Reroot.CollectNodes | PMTSim/ZSolid.cc:828-848 | intended collectNodes: exactly the reached leaves whose class equals the query |
| Reroot.CollectNodesAsWrittenIgnoresQuery | PMTSim/ZSolid.cc:828-831 | as written, every query gets the leaves recorded UNDEFINED |
| Reroot.CandidateAsWrittenCounterexample | PMTSim/ZSolid.cc:795-823 | on the sample tree Union(Union(A, B), wrapped C) at zcut 0, the search as written picks A while the intended one picks the wrapper of C, the first INCLUDE node of the reverse preorder |
| Reroot.CollectNodesCounterexample | PMTSim/ZSolid.cc:828-848 | on the same tree, collecting the INCLUDE leaves as written yields nothing instead of A and the wrapper of C |
| Clone.PrimitiveClone | PMTSim/ZSolid.cc:1258-1286 | a primitive is copied iff it is an ellipsoid, a tube or a polycone; anything else aborts |
| Clone.DeepCloneR | PMTSim/ZSolid.cc:1193-1209 | the clone only appends to the arena, which stays well formed, and the clone is never a wrapper |
| Clone.DeepClone | PMTSim/ZSolid.cc:1169-1175 | the clone succeeds iff the tree is in the supported subset, and then it is a tree that reads as the same solid as the original |
| Clone.BooleanClone | PMTSim/ZSolid.cc:1211-1236 | a boolean clone only appends, and its result is a boolean |
| Clone.BooleanCloneShape | PMTSim/ZSolid.cc:1211-1255 | a successful boolean clone needs an untransformed left operand and an unrotated right one, and appends a fresh wrapper carrying the right operand's translation followed by the boolean |
| Clone.CloneSucceedsIffClonable | PMTSim/ZSolid.cc:1193-1286 | the clone succeeds iff every boolean has an untransformed left operand and an unrotated right one and every primitive is supported |
| Clone.ClonePreservesGeometry | PMTSim/ZSolid.cc:1169-1236 | the clone describes the same solid as the original below its top wrapper, up to identity placements |
| Clone.CloneIsFreshTree | PMTSim/ZSolid.cc:1169-1236 | the clone is a tree made only of the nodes it appended |
| Clone.CloneRootBare | PMTSim/ZSolid.cc:1238-1255 | the clone's root is never a wrapper, and a boolean root's right operand is one |
| Clone.ClonePlainWrappers | PMTSim/ZSolid.cc:1210-1234 | every wrapper the clone makes is unrotated and moves a solid that is not a wrapper |
| Engine.ZSolid.constructor | PMTSim/ZSolid.cc:28-56 | the object holds the deep clone, every table of initTree is valid, no class is recorded, and there is no candidate root yet |
| Engine.ZSolid.InitTree | PMTSim/ZSolid.cc:58-87 | parent links, depths, the six traversals with their ranks, the width and the height all describe the tree, and the class table is untouched |
| Engine.ZSolid.FillParentMap | PMTSim/ZSolid.cc:98-102 | the parent table gains the root without a parent and the operand links of the tree |
| Engine.ZSolid.FillParentMapR | PMTSim/ZSolid.cc:104-118 | the parent table gains the operand links of the subtree |
| Engine.ZSolid.DepthR | PMTSim/ZSolid.cc:120-126 | the depth table gains the depths of the subtree |
| Engine.ZSolid.InorderR | PMTSim/ZSolid.cc:128-138 | the inorder list gains the subtree's inorder walk, and the rank table the positions that follow the old length |
| Engine.ZSolid.RinorderR | PMTSim/ZSolid.cc:140-150 | as InorderR, for reverse inorder |
| Engine.ZSolid.PreorderR | PMTSim/ZSolid.cc:152-161 | as InorderR, for preorder |
| Engine.ZSolid.RpreorderR | PMTSim/ZSolid.cc:163-172 | as InorderR, for reverse preorder |
| Engine.ZSolid.PostorderR | PMTSim/ZSolid.cc:174-182 | as InorderR, for postorder |
| Engine.ZSolid.RpostorderR | PMTSim/ZSolid.cc:184-192 | as InorderR, for reverse postorder |
| Engine.ZSolid.Index | PMTSim/ZSolid.cc:280-293 | in a valid engine, index gives a reached node's position in the walk of the chosen order, and 0 for a node the walk does not reach |
| Engine.ZSolid.IndexIsPosition | PMTSim/ZSolid.cc:194-199 | index gives a reached node its position in the chosen traversal, and 0 to any other node |
| Engine.ZSolid.WidthCountsReached | PMTSim/ZSolid.cc:84 | the width is the number of reached nodes, which is the length of every traversal |
| Engine.ZSolid.DepthCountsLevels | PMTSim/ZSolid.cc:120-126 | the root is at depth 0, every reached node lies within the height, and operands sit one level below their boolean |
| Engine.ZSolid.Zcls | PMTSim/ZSolid.cc:203-207 | the move flag matters only for a wrapper; a class other than UNDEFINED is one recorded under the node, or under the solid it moves when move is set |
| Engine.ZSolid.SetZcls | PMTSim/ZSolid.cc:203-213 | the class is recorded under the node, or under the solid it moves, reads back through zcls, and no other entry changes |
| Engine.ZSolid.GetTreeTransform | PMTSim/ZSolid.cc:1115-1150 | the loop up the parent chain computes the frame offset TreeTranslation defines, failing where it does |
| Engine.ZSolid.GetZ | PMTSim/ZSolid.cc:1288-1296 | getZ is the z of the frame offset |
| Engine.ZSolid.ClassifyTreeR | PMTSim/ZSolid.cc:499-556 | the pass returns the value and leaves the class table ClassifyInto gives, or fails where it does |
| Engine.ZSolid.ClassifyLeaf | PMTSim/ZSolid.cc:525-553 | the leaf branch, as ClassifyInto gives it |
| Engine.ZSolid.ClassifyTree | PMTSim/ZSolid.cc:492-497 | the pass from the root, as ClassifyInto gives it |
| Engine.ZSolid.ApplyZCut | PMTSim/ZSolid.cc:854-874 | the in-place cut succeeds iff Cut.ApplyZCut does, and then leaves its arena |
| Engine.ZSolid.CutTreeR | PMTSim/ZSolid.cc:750-774 | the in-place pass succeeds iff CutR does, and then leaves its arena |
| Engine.ZSolid.FindCandidateRootAsWrittenR | PMTSim/ZSolid.cc:795-823 | the candidate field ends as the as-written search says |
| Engine.ZSolid.FindCandidateRootAsWritten | PMTSim/ZSolid.cc:786-793 | as written, the candidate is the first exactly-INCLUDE node in preorder, or none |
| Engine.ZSolid.FindCandidateRootR | PMTSim/ZSolid.cc:795-823 | the intended search reports whether it found a candidate, and sets the field only then |
| Engine.ZSolid.FindCandidateRoot | PMTSim/ZSolid.cc:786-793 | the candidate is the first exactly-INCLUDE node of the reverse preorder, or none |
| Engine.ZSolid.CollectNodesR | PMTSim/ZSolid.cc:833-848 | the vector gains the reached leaves whose class equals the query, left operands first |
| Engine.ZSolid.CollectNodesAsWritten | PMTSim/ZSolid.cc:828-831 | as written, the vector gains the leaves recorded UNDEFINED, whatever the query |
| Engine.ZSolid.CollectNodes | PMTSim/ZSolid.cc:828-831 | as intended, the vector gains the leaves matching the query, in postorder |
| Engine.ZSolid.ReshapeKeepsValid | PMTSim/ZSolid.cc:738-748 | every table of initTree still describes an arena of the same shape |
| Engine.ZSolid.CutPasses | PMTSim/ZSolid.cc:738-745 | classify, cut, classify: it succeeds iff CutTree does, and then leaves its arena and class table |
| Engine.ZSolid.CutAndReclassify | PMTSim/ZSolid.cc:738-745 | the three passes, which keep every table of initTree valid |
| Engine.ZSolid.CutTree | PMTSim/ZSolid.cc:738-748 | cutTree succeeds iff CutTree does, then leaves its arena and class table and keeps the tables valid; the candidate is the one the code as written finds, the first exactly-INCLUDE node of the preorder |
| Engine.ZSolid.DumpTreeR | PMTSim/ZSolid.cc:433-481 | the dump passes iff at every reached node the moved solid has no frame offset of its own, the node's frame offset can be read, and a solid CanZ accepts has a Z range |
| Engine.ZSolid.Create | PMTSim/ZSolid.cc:28-56 | construction fails iff the clone or the dump over it does, and otherwise gives a fresh valid object over the clone with no class recorded and no candidate root |
| Engine.ConstructsIffRanges | PMTSim/ZSolid.cc:433-481 | once the clone succeeds, construction fails exactly when a reached solid that CanZ accepts has no Z range; the dump's frame checks cannot fail on a clone |
| Engine.ZSolid.CreateZCutTree | PMTSim/ZSolid.cc:20-26 | it fails iff construction or the cut does; the result is the cut clone under the clone's root, not the candidate |
| PmtSim.DigitEnd | PMTSim/PMTSim.cc:129 | the end of the longest run of digits from j |
| PmtSim.Strtol | PMTSim/PMTSim.cc:129 | strtol leaves the end pointer in place iff the sign has no digit after it, and then yields 0; otherwise it consumes the sign and the whole digit run |
| PmtSim.StallsIffDanglingSign | PMTSim/PMTSim.cc:127-131 | the scan stalls iff some sign ahead has no digit after it |
| PmtSim.Extract | PMTSim/PMTSim.cc:123-133 | on a C string without such a sign the loop ends, keeps what vals held, and appends the values of the runs in order |
| PmtSim.DanglingSignStalls | PMTSim/PMTSim.cc:127-131 | a sign at the end of the name or before a non-digit keeps the loop from ending |
| PmtSim.ScanAllAgrees | PMTSim/PMTSim.cc:127-131 | on every name where the written scan ends, the corrected scan yields the same values |
| PmtSim.SkipsDanglingSign | PMTSim/PMTSim.cc:127-131 | the corrected scan steps over a sign that no digit follows, yielding nothing for it |
| PmtSim.ExtractAll | PMTSim/PMTSim.cc:123-133 | the corrected loop ends on every C string, keeps what vals held, appends the corrected scan, and on names Extract returns on appends what Extract does |
| PmtSim.FirstValue | PMTSim/PMTSim.cc:127-131 | a scan that ends yields a value iff a digit or a sign lies ahead, and the first value is the number at the first such character |
| PmtSim.GetMakerZCut | PMTSim/PMTSim.cc:94-110 | the zcut is present iff a digit or a sign occurs in the name, and it is the first extracted value |
| PmtSim.DecimalValue | PMTSim/PMTSim.cc:129 | reading the decimal digits of n gives n back |
| PmtSim.ReadsSigned | PMTSim/PMTSim.cc:129 | strtol reads a written signed value back and stops at the separator after it |
| PmtSim.ScanSuffix | PMTSim/PMTSim.cc:127-131 | the scan depends only on what lies ahead |
| PmtSim.SkipsText | PMTSim/PMTSim.cc:130 | characters that start no number yield nothing |
| PmtSim.ScansWrittenValue | PMTSim/PMTSim.cc:127-131 | a value written out with its separator is read as that value, and the scan goes on with what follows |
| PmtSim.ExtractReadsRendered | PMTSim/PMTSim.cc:123-133 | round trip: values written out with separators, after any plain text, are extracted back, all of them and in order |
| PmtSim.RelNameAsWritten | PMTSim/PMTSim.cc:50-54 | as written, a name in which Ham_ occurs anywhere loses its first four characters, and any other name is kept unchanged |
| PmtSim.RelNameAsWrittenCounterexample | PMTSim/PMTSim.cc:52-54 | as written, PMT_Ham_body is looked up as Ham_body; as intended it stays PMT_Ham_body |
| PmtSim.RelName | PMTSim/PMTSim.cc:50-54 | as intended, a name that starts with Ham_ loses that prefix, and any other name is kept unchanged |
| PmtSim.RelNameStripsPrefix | PMTSim/PMTSim.cc:52-54 | the intended reduction undoes a Ham_ prefix, and leaves a name without an underscore unchanged |
| PmtSim.RelNamesAgree | PMTSim/PMTSim.cc:52-54 | the written and the intended reduction agree on every name in which Ham_ occurs, if at all, only at the head |

## Left out

- Debug output: printing, drawing, what the tree dumps print, and the names of modes, masks and entities. The assertions of `dumpTree` are modelled by Engine.ZSolid.DumpTreeR. `dumpUp` is left out: its only check, reading the tree transform of each reached leaf, is one that `dumpTree` has already made.
- `PMTFastSim/N4Volume.hh`, `PMTSim/P4Volume.cc` and the Python analysis scripts. They export or plot, over foreign libraries.
- Geant4 itself. Solids are reduced to the parameters the engine reads, which are Z cuts, half lengths and Z planes. The construction of the PMT solids and the `GetSolid`, `getLV`, `getPV` and `WrapLV` wrappers call classes that are not part of this model.
- Floating point: doubles are reals, so rounding is not modelled.
- strtol overflow: longs are unbounded integers.
- ZCut.PolyconeZRange: a polycone with no Z plane makes the source read `Z_values[num_z-1]` with the unsigned count wrapped round, far past the array, which is undefined behaviour. The model reports `Fatal(NoZPlanes)` there instead.
- The numeric values of the classification masks come from a header that is not part of this model. The model uses UNDEFINED 0, INCLUDE 1, STRADDLE 2 and EXCLUDE 4. The engine relies only on UNDEFINED being 0 and the other three being distinct single bits.
- `std::map` lookups with `operator[]` insert a zero entry for an absent key. The model reads 0 (or no parent) without inserting anything.
- `index` returns -1 for a mode outside the six. The model's order type has exactly six values.
- An assertion failure stops the C++ program. The model returns `Fatal`, and says nothing about the object's fields after a failure.
- Engine.ZSolid.constructor: the constructor requires a clone that succeeds, and it stops after initTree. Engine.ZSolid.Create is the entry that reports a failing clone and runs the dump that `init` makes next.
- Clone: a wrapper around the root of the original is looked through and its transform is dropped, as `DeepClone` does.
- PmtSim.Extract: the loop never ends on a name with a sign that no digit follows, so the method requires names without one. StallsIffDanglingSign and DanglingSignStalls state the hazard itself, and it is the fourth finding. PmtSim.GetMakerZCut calls Extract as the source does, and so has the same requirement.
- A C string is modelled by its characters before the terminating NUL, which CString requires to hold no NUL. The `strdup` copy and its `free` are left out, since the name is read only.
- PmtSim.GetMakerZCut: the solid construction it selects is left out. The method returns the chosen zcut.
- Solid names and the canvas built from the width and height are left out.

## Findings

| source | as written | input that shows it | evidently intended | confidence | as-written member | corrected member |
|---|---|---|---|---|---|---|
| PMTSim/ZSolid.cc:815-822 | the early return ends only the current call, so after the right operand has set the candidate the left operand is still searched and can replace it; the result is the first INCLUDE node in preorder | the tree Union(Union(A, B), wrapped C) at zcut 0, with A and C above the cut and B below it: the written search picks A | stop at the first node classed exactly INCLUDE in the reverse preorder (self, right, left) that the comment on findCandidateRoot names; here the wrapper of C | not executed | Reroot.CandidateAsWrittenCounterexample | Reroot.FindCandidate |
| PMTSim/ZSolid.cc:828-831 | 0 is passed in the query position and the query in the depth position, so the leaves recorded UNDEFINED are collected whatever is asked | the same tree, asked for its INCLUDE leaves: nothing is collected instead of A and the wrapper of C | pass the query as the query and 0 as the depth | not executed | Reroot.CollectNodesCounterexample | Reroot.CollectNodes |
| PMTSim/PMTSim.cc:52-54 | the test finds Ham_ anywhere in the name, and then the name's own first four characters are dropped | PMT_Ham_body is looked up as Ham_body | drop Ham_ only when the name starts with it, as the flag's name says | not executed | PmtSim.RelNameAsWrittenCounterexample | PmtSim.RelNameStripsPrefix |
| PMTSim/PMTSim.cc:127-131 | strtol leaves the end pointer in place at a sign that no digit follows, and the loop neither advances nor ends | the name ellipsoid_-: strtol at the minus sign converts nothing, and the loop pushes 0 at the same place forever | convert every group of digits and signs, as the comment on Extract says, and step over a sign that starts no number | not executed | PmtSim.DanglingSignStalls | PmtSim.ExtractAll |
