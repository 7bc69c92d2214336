# Verification of the engine's algorithms

This project models the algorithmic parts of the engine in Dafny and proves what they are for.
`dafny verify dfyconfig.toml` checks all of it. Code that changes state step by step is modelled by
classes, arrays and loops that are proved against functions on values; the lemmas are about those
functions.

- **Crafting** (`HopcroftKarp`, `Assignments`, `Recipes`, `Crafting`, `CraftIndex`): the bipartite
  matcher on arrays with its layers and recursive search, the five kinds of recipe checks, and the
  three-layer hash index of the manager against a scan of all recipes.
- **Noise** (`Noise`, `NoiseLaws`, `NoiseRoom`, `NoiseMaps`, `RandomRange`): the incremental lattice
  walks of the noise maps against the point functions, in real arithmetic, what these are between the
  lattice points, the exact room the maps' buffer needs, and the counting argument for unbiased ranges.
- **Plural forms** (`PluralForm`, `PluralSyntax`, `PluralReadings`, `PluralLaws`): the
  recursive-descent compiler against written expressions and their values, all the other texts it
  accepts, and its texts against C, with the precedence of sections 6.5.3 to 6.5.15 of
  ISO/IEC 9899:2011.
- **Chat** (`Chat`, `ChatWords`): the layout of messages into console lines, where words and links
  may break, and the buffer around it.
- **Inventory** (`Inventory`, `StackLaws`, `InventoryMoves`, `ShiftClick`): stacks with their wear and
  metadata, lists, move actions and shift-clicks, with u16 counts.
- **Emerge queue** (`Emerge`, `EmergeLaws`): the shared queue of the worker threads as a state machine
  whose steps are the critical sections under the mutex, and the classes that refine it.
- **Paths** (`Paths`): the in-place removal of "." and "..".
- **Map** (`Collision`, `Eviction`, `MapBlocks`, `NodeTimers`): the swept box test, unloading of
  blocks, the storage of a block's nodes, and node timers.

What holds only under a condition is stated with it. Where the code does less than one may expect,
there is a lemma with the exact condition, and mostly a concrete case beside it:

- the craft index and the empty hand item, for one definition (`CraftManager.LostExactly`) and for
  all (`CraftManager.IndexCompleteIffHandFree`, with `ShapedRecipes.HandFreeExactly`;
  `CraftManager.HandRecipeLost`);
- a shift-click, whose calls may return early and leave the count moved from an earlier one: within
  one list it can move more than was asked for, and the source's assertion on the counts fails
  (`ShiftClicks.SoundExactly`, `ShiftClicks.AtMostRequested`, `ShiftClicks.UpToTheStack`;
  `ShiftClicks.MoreThanRequested`);
- nearly neutral noise parameters (`NoisePoints.SkipIsExact`);
- lattice walks that leave the buffer: 3D maps of depth 1 (`NoiseRoom.FineRoom3`;
  `NoiseRoom.FlatBufferTooSmall`), and a lacunarity below 1 without room for the first octave
  (`NoiseMaps.Noise.Fits2Exactly`, `NoiseMaps.Noise.Fits3Exactly`; `NoiseRoom.LowLacunarityTooSmall`);
- a lacunarity and a spread below 1, which the check of the spreads lets pass
  (`NoiseRoom.SpreadCheckIsRight`);
- plural forms that leave out an arm, whose functions have no value where the evaluation comes to it
  (`PluralReadings.AcceptedExactly`, `PluralReadings.CallFailsExactly`; `PluralReadings.UnclosedArm`).
  Accepted without being expressions are also operands left out before another token, as in `()`,
  `(n+)` and `n?:1`, and signed numbers;
- consoles with one or two columns, where names leave no room for lines (`Chat.NothingFits`) and
  deleting takes another message's lines (`Chat.LinesOfOneAreOldest`; `Chat.NarrowLosesNext`);
- a console whose height alone changes while it is not scrolled to the bottom, and then shows its top
  (`Chat.ChatBuffer.Reformat`; `Chat.HigherGoesToTop`);
- chat links with `http` before one with `https`, which are not made links
  (`ChatLayout.NextLinkIsFirst`; `ChatLayout.PlainLinkPassedOver`);
- boxes that enter two axes at the same moment, which pass each other's edges unreported
  (`Collision.AxisAlignedCollision`, `Collision.OnlyLastPasses`; `Collision.EdgeMissed`), and a moving
  box without size along an axis (`Sweeps.FacingTouches`; `Sweeps.PointInside`);
- unloading without a limit when a save fails (`Eviction.UnsavedStaysWithOthers`;
  `Eviction.UnsavedAloneIsLost`);
- a trigger time equal to the mark of an empty timer list (`NodeTimers.SkipIsRight`;
  `NodeTimers.MarkIsMissed`).

Conditions on callers, where the source has them implicitly:

- Noise maps have positive spreads, and parameters the constructor accepts; they are filled only
  where the buffer has room (`NoiseRoom.Room2`, `NoiseRoom.Room3`), which is always so for 2D maps
  with a lacunarity of at least 1, and for 3D maps deeper than 1 of that kind.
- Fewer than 2^31 positions are queued for emerging, so that a counter doubled in 32 bits does not
  wrap.

## Model

| member | source | states |
|---|---|---|
| `HopcroftKarp.HopcroftKarpCanMatchAll` | src/craftdef.cpp:494-592 | the matcher answers true exactly when the bipartite graph has a perfect matching, and false exactly when some set of left vertices has too few neighbours (Hall's condition, both directions) |
| `HopcroftKarp.Matcher.constructor` | src/craftdef.cpp:574-578 | the arrays start with every vertex matched to the dummy |
| `HopcroftKarp.Matcher.SeedRoots` | src/craftdef.cpp:511-523 | the queue holds exactly the unmatched left vertices, each once and in order, on layer 0, and no other vertex has a layer |
| `HopcroftKarp.Matcher.Bfs` | src/craftdef.cpp:507-542 | every layer is one more than a parent's, no edge from before the dummy's layer skips a layer, and no layer is beyond the dummy's; if the dummy is not reached, every neighbour of a visited vertex is matched to a visited vertex; no distance or index leaves its range |
| `Pairings.LayersAreShortest` | src/craftdef.cpp:507-542 | so the layer of a vertex is the length of a shortest alternating walk to it, for all vertices no further away than the dummy, and the others have none |
| `HopcroftKarp.Matcher.Dfs` | src/craftdef.cpp:544-568 | the recursion keeps the two pair arrays mutually inverse along graph edges outside of the path it unwinds, a failed search changes no pair and only marks vertices without a layered path to the dummy; either way the layers of the phase stay sound: no edge skips one, only partners beyond the first vertex's layer change, and no continuation that was given up comes back; it terminates on the layer |
| `HopcroftKarp.Matcher.RunPhase` | src/craftdef.cpp:580-589 | the searches of one phase match another vertex, and afterwards no walk to the dummy is as short as the ones the phase searched along |
| `HopcroftKarp.Matcher.CanMatchAll` | src/craftdef.cpp:574-591 | true comes with a perfect matching in pair_u, false with the visited vertices of the last search as a Hall violator; every phase adds a match, and the shortest walk to the dummy is longer in each phase than in the one before, by which the phases end |
| `Pairings.PhaseProgress` | src/craftdef.cpp:580-589 | a phase whose search reached the dummy adds at least one match |
| `Pairings.PhaseLengthens` | src/craftdef.cpp:580-589 | after the searches from all unmatched vertices every alternating walk to the dummy is longer than its layer was |
| `Pairings.WalkIsBehind` | src/craftdef.cpp:544-589 | for that: a walk of the new matching that keeps up with the layers of the phase only meets vertices that were given up |
| `Pairings.RootsPrunedMeansAllPruned` | src/craftdef.cpp:544-589 | once no unmatched vertex is left to search from, every layered vertex has been given up |
| `Pairings.SaturationGivesViolator` | src/craftdef.cpp:507-542 | when the last layering stops with a vertex unmatched, the visited vertices have fewer neighbours than members |
| `Graphs.ViolatorExcludesMatching` | src/craftdef.cpp:489-494 | a set with too few neighbours rules out every perfect matching |
| `Items.InputItemMatchesRecipe` | src/craftdef.cpp:69-94 | an input name matches a slot if it is the name itself, or the slot is a list of groups and the input's definition has all of them, each not 0 |
| `Items.MatchesMeans` | src/craftdef.cpp:69-94 | that test with aliases, definitions and the prefix of six characters written out |
| `Items.GroupsAreParts` | src/craftdef.cpp:78-88 | the groups of a slot are the parts between its commas, none of which has a comma; one at the end adds nothing |
| `Items.LessMeans` | src/craftdef.cpp:614-623 | names are sorted by the first character in which they differ, or by their length |
| `Items.SortedUnique` | src/craftdef.cpp:614-623 | a multiset of names has one sorted listing |
| `Assignments.ExactNamesPresent` | src/craftdef.cpp:633-643 | an assignment can only exist if every exact-name slot finds its name in the input |
| `Assignments.ExactNamesFirst` | src/craftdef.cpp:633-643 | giving exact-name slots the items of that name never changes whether an assignment exists |
| `Assignments.ReorderAssignment` | src/craftdef.cpp:594-669 | whether an assignment exists depends only on the multisets of items and slots |
| `CraftDefinitions.SetDifference` | src/craftdef.cpp:633-639 | the merge over two sorted ranges gives the multiset difference |
| `CraftDefinitions.PrefilterSound` | src/craftdef.cpp:625-647 | either an exact-name slot stays unfilled and there is no assignment, or what is left of the input faces exactly the group slots with the same answer |
| `CraftDefinitions.BuildGraph` | src/craftdef.cpp:645-668 | the graph handed to the matcher has a perfect matching exactly when the items left can be assigned to the group slots |
| `CraftDefinitions.CheckShapeless` | src/craftdef.cpp:594-669 | a shapeless recipe is accepted exactly when some bijection sends every non-empty input item to a slot it matches, up to the cap on slots |
| `CraftGrids.CraftGetBounds` | src/craftdef.cpp:143-174 | the bounding box of the non-empty cells of a grid, or failure if there are none |
| `ShapedRecipes.BoundsUnique` | src/craftdef.cpp:143-174 | a grid has one bounding box |
| `CraftDefinitions.PadRow` | src/craftdef.cpp:376-381 | filling up the last row changes no cell |
| `CraftDefinitions.CheckShaped` | src/craftdef.cpp:351-415 | the loops compare the two bounding boxes cell by cell |
| `ShapedRecipes.ShapedIsShift` | src/craftdef.cpp:351-415 | comparing bounding boxes accepts exactly when some shift of the recipe over the whole plane matches everywhere |
| `ShapedRecipes.HandFreeExactly` | src/craftdef.cpp:69-94 | the condition on the hand under which that holds: it is not a known item, or every group it is in has a comma in its name |
| `ShapedRecipes.ShiftPairsItems` | src/craftdef.cpp:351-415 | a matching shift that gives no slot the hand pairs the non-empty cells, with equal names where the recipe has no groups |
| `CraftDefinitions.CheckToolRepair` | src/craftdef.cpp:728-780 | accepted exactly if the method is that of the grid and there are two items i < j, the only ones, both single, of one name, tools that can be repaired, whose added wear, less 65536 and with the rounded additional one, is below 65536 |
| `CraftDefinitions.RepairGives` | src/craftdef.cpp:728-755 | what comes out: the first of the two, single, with its metadata and that wear, or none if it is negative |
| `CraftDefinitions.RepairsExactly` | src/craftdef.cpp:761-780 | two items are found in the grid, and something comes out, exactly in that case |
| `CraftDefinitions.CheckOneItem` | src/craftdef.cpp:840-864 | cooking and fuel accept exactly one non-empty item that matches |
| `CraftDefinitions.OneItemExactly` | src/craftdef.cpp:840-864 | that is, one slot has an item that matches and all others are empty |
| `CraftDefinitions.Check` | src/craftdef.cpp:351-864 | every kind of definition is checked by its own test |
| `CraftDefinitions.AcceptsByKind` | src/craftdef.cpp:351-864 | which method each kind wants, what it wants of the items, and the limit of 30000 group slots |
| `CraftHashes.GridHashOfMultiset` | src/craftdef.cpp:40-65 | the grid hash depends only on which non-empty names occur how often |
| `CraftHashes.FiledAs` | src/craftdef.cpp:433-456 | which layer and hash a definition of any kind is filed under: the text of its sorted names if no slot starts with group:, else the number of slots that are not blank, and 2 for repairs |
| `CraftHashes.TextTellsNames` | src/craftdef.cpp:43-53 | the text that is hashed tells the names, if none has a line break |
| `CraftHashes.CheckForcesHash` | src/craftdef.cpp:433-456 | whatever a definition accepts hashes, in the definition's own layer, to the definition's own hash, for all five kinds |
| `CraftManager.BestIsBest` | src/craftdef.cpp:1054-1103 | the fold over candidates finds one if there is any, and none of them has a higher priority |
| `CraftManager.BestIsFirst` | src/craftdef.cpp:1070-1096 | of equal priorities the first visited wins |
| `CraftManager.CraftsMeans` | src/craftdef.cpp:1074-1085 | which item has to be known for a definition to be used: the output, nothing for fuel, and for a repair what the name of the tools stands for |
| `CraftManager.LookupComplete` | src/craftdef.cpp:1041-1103 | the three hash buckets looked at hold every definition that accepts the input |
| `CraftManager.IndexCompleteIffHandFree` | src/craftdef.cpp:69-94 | the index loses no recipe for any input exactly when no group slot accepts the empty hand item |
| `CraftManager.LostExactly` | src/craftdef.cpp:433-456 | a definition is lost for some input that it accepts exactly if it is a shaped recipe whose slots can be filled with some of them left to the hand and the same bounding box |
| `CraftManager.LosesMeans` | src/craftdef.cpp:1041-1103 | for any input a definition accepts, the lookup passes it over exactly if the hashes differ, whatever else is registered |
| `CraftManager.NeverLost` | src/craftdef.cpp:69-94 | a definition none of whose slots accepts the hand is lost for no input, whatever groups other recipes use |
| `CraftManager.HandRecipeLost` | src/craftdef.cpp:69-94 | a concrete recipe and input the index loses otherwise: three slots filed, two items counted |
| `CraftManager.CraftDefManager.constructor` | src/craftdef.cpp:1031-1034 | no definitions are registered at first |
| `CraftManager.CraftDefManager.RegisterCraft` | src/craftdef.cpp:1199-1204 | the definition is added to the unhashed ones |
| `CraftManager.CraftDefManager.InitHashes` | src/craftdef.cpp:1223-1238 | all definitions move to the bucket of their own layer and hash, none is lost |
| `CraftManager.CraftDefManager.GetCraftResult` | src/craftdef.cpp:1041-1103 | a recipe is found exactly when a scan of all registered definitions would find one that checks and has a known output, and the one found has the highest priority of all such |
| `NoisePoints.MyFloorIsFloor` | src/noise.cpp:41 | myfloor is the floor but for negative integers, where it is one too low |
| `NoisePoints.Noise2dAtFloor` | src/noise.cpp:240-255 | that does not matter: the 2D value is that of the cell of the true floor, with or without easing |
| `NoisePoints.Noise3dAtFloor` | src/noise.cpp:258-283 | nor for the 3D value |
| `NoiseLaws.AtPoint2` | src/noise.cpp:240-255 | at a lattice point the value is the lattice value |
| `NoiseLaws.StraightX2` | src/noise.cpp:200-255 | without easing, inside a cell and at its edges, the value t of the way between two points that differ in x is that far between their values; half-way it is their mean |
| `NoiseLaws.StraightY2` | src/noise.cpp:200-255 | the same in y |
| `NoiseLaws.AtPoint3` | src/noise.cpp:258-283 | in three dimensions: at a lattice point the lattice value |
| `NoiseLaws.StraightX3` | src/noise.cpp:200-283 | and straight lines inside a cell in x |
| `NoiseLaws.StraightY3` | src/noise.cpp:200-283 | in y |
| `NoiseLaws.StraightZ3` | src/noise.cpp:200-283 | and in z |
| `NoiseLaws.EaseSymmetric` | src/noise.h:236-239 | the ease curve is the same from both ends |
| `NoiseLaws.EaseFlat` | src/noise.h:236-239 | it is flat at them, between 10t^3 - 15t^4 and 10t^3 |
| `NoiseLaws.EaseMonotone` | src/noise.h:236-239 | and it rises strictly |
| `NoiseLaws.EasedInside` | src/noise.cpp:212-235 | so easing moves a point inside its cell |
| `NoiseLaws.EasedValue2` | src/noise.cpp:240-255 | and the eased value of a point is the plain value of the moved one |
| `NoiseLaws.EasedValue3` | src/noise.cpp:258-283 | also in three dimensions |
| `NoisePoints.NoiseFractal2D` | src/noise.cpp:314-337 | the loop over octaves computes the weighted sum |
| `NoisePoints.NoiseFractal3D` | src/noise.cpp:340-363 | the same in three dimensions |
| `NoiseLaws.FractalOctaves2` | src/noise.cpp:314-337 | without octaves the fractal is the offset; with one more it is the noise at the point over the spread, scaled, and the persistence times the fractal of the point taken lacunarity times as far, with the next seed |
| `NoiseLaws.FractalOctaves3` | src/noise.cpp:340-363 | the same in three dimensions |
| `NoisePoints.SkipIsExact` | src/noise.cpp:677-680 | leaving out scale and offset that are nearly 1 and 0 is exact precisely when they are 1 and 0 |
| `NoiseLaws.RescaledWithin` | src/noise.cpp:677-680 | what leaving them out changes is at most 0.00001 and as much times the value; exactly parameters that differ by more are not left out |
| `LatticeWalk.WalkFloor` | src/noise.cpp:532-551 | cell and fraction carried by the walk are the floor and the rest of the coordinate |
| `NoiseMaps.Noise.constructor` | src/noise.cpp:367-412 | sizes below 1 are raised to 1, and the buffers have the sizes computed for accepted parameters, whatever the lacunarity |
| `NoiseMaps.Noise.Fits2Exactly` | src/noise.cpp:441-481 | every walk of every octave of a 2D map, at every position, stays within the lattice buffer exactly when there is room for the most points the finest octave can need; with a lacunarity of at least 1 there always is |
| `NoiseMaps.Noise.Fits3Exactly` | src/noise.cpp:441-481 | the same for a 3D map; with a lacunarity of at least 1 there is room exactly when the map is deeper than 1 or has no octaves |
| `NoiseRoom.RoomIsExact2` | src/noise.cpp:441-518 | for any buffer size: the finest octave is the last one, or the first one if the lacunarity is below 1, and some position needs Ceil(size * factor / spread) + 2 points along each axis at once |
| `NoiseRoom.RoomIsExact3` | src/noise.cpp:441-586 | the same in three dimensions |
| `NoiseRoom.FineRoom3` | src/noise.cpp:471-477 | of all maps with a lacunarity of at least 1 exactly those of depth 1 have too small a buffer for a 3D walk |
| `NoiseRoom.MostPointsReached` | src/noise.cpp:514-515 | the most lattice points a walk can need are needed from some start |
| `NoiseRoom.SpreadCheckIsRight` | src/noise.cpp:460-467 | the check of the spreads rejects all octaves that step over more than one cell exactly when the lacunarity is at least 1 or the spread is at least 1 anyway |
| `NoiseRoom.AcceptedOnAxes` | src/noise.cpp:443-467 | the parameters accepted, cleared of quotients: on each axis at most 10^9 points, and a factor that is 0 or at most the spread |
| `NoiseMaps.Noise.ValueMap2D` | src/noise.cpp:496-552 | the walk with carried corners writes the point function's value at every grid point |
| `NoiseMaps.Noise.ValueRow3` | src/noise.cpp:608-630 | the innermost 3D loop does so for one row |
| `NoiseMaps.Noise.ValueMap3D` | src/noise.cpp:558-645 | and the three loops for the whole grid |
| `NoiseMaps.Noise.UpdateResults` | src/noise.cpp:724-751 | each octave is added with its weight, in place |
| `NoiseBuffers.GridIsOctave2` | src/noise.cpp:649-683 | the grid of an octave's step samples that octave at the integer offsets |
| `NoiseBuffers.GridIsOctave3` | src/noise.cpp:686-721 | the same in three dimensions |
| `NoiseMaps.Noise.NoiseMap2D` | src/noise.cpp:649-683 | given that room, entry (i, j) of the map is NoiseFractal2D at the shifted point, for exact scale and offset; in general it is the rescaled sum of octaves |
| `NoiseMaps.Noise.NoiseMap3D` | src/noise.cpp:686-721 | given that room, entry (i, j, k) of the map is NoiseFractal3D at the shifted point |
| `NoiseRoom.LowLacunarityTooSmall` | src/noise.cpp:441-481 | parameters with a lacunarity below 1 that are accepted and have no room for the first octave |
| `NoiseRoom.FlatBufferTooSmall` | src/noise.cpp:441-481 | accepted parameters of a map of depth 1, which has no room for a 3D walk |
| `RandomRange.ThresholdIsRest` | src/noise.cpp:80-117 | the threshold computed in 32 bits is the rest of 2^32 by the bound |
| `RandomRange.Unbiased` | src/noise.cpp:80-117 | every result has exactly floor(2^32 / bound) accepted draws |
| `RandomRange.HitsInWindows` | src/noise.cpp:80-117 | n windows of bound consecutive numbers hold exactly n with a given remainder |
| `RandomRange.PcgRandom.Next` | src/noise.cpp:69-77 | the state takes one step modulo 2^64 with the multiplier of the generator, and the output is a function of the old one |
| `RandomRange.OutputMeans` | src/noise.cpp:69-77 | the output is a rotation, by the five highest bits of the state, of the 32 bits that the state has from bit 27 on, each against the bit 18 places above it |
| `RandomRange.RotatedBit` | src/noise.cpp:75-76 | bit k of a rotation is bit k + rot modulo 32 |
| `RandomRange.StepUndone` | src/noise.cpp:69-72 | the step can be undone from both sides: every state has exactly one predecessor |
| `RandomRange.SeededOneToOne` | src/noise.cpp:59-66 | different seeds give different states |
| `RandomRange.PcgRandom.constructor` | src/noise.cpp:53-66 | the increment is made odd, and the seed is stirred in between two steps |
| `RandomRange.PcgRandom.Range` | src/noise.cpp:80-117 | the result is the remainder of the first accepted output; bounds 0 and 1 are special |
| `RandomRange.PcgRandom.SignedRange` | src/noise.cpp:120-129 | a result in [min, max] for all 32-bit min <= max, including the full range where the bound wraps to 0 |
| `RandomRange.SignedResult` | src/noise.cpp:120-129 | adding min in 32-bit arithmetic and reading the sum as signed stays in the range |
| `PluralParser.RunParseLtr` | src/gettext_plural_form.cpp:66-81 | the loop of a left-associative level computes its specification |
| `PluralSyntax.ParsesTo` | src/gettext_plural_form.cpp:38-186 | parsing, at any level, a form at least that tight stops right after it, and gives a function for its value, or none exactly if the form fails |
| `PluralSyntax.LoopsTo` | src/gettext_plural_form.cpp:38-81 | operators of one level associate to the left |
| `PluralSyntax.RoundTrip` | src/gettext_plural_form.cpp:188-194 | any well-formed way of writing an expression, with any spaces, compiles to a function equal to the expression's value at every n, for the precedence and the operators that the laws below tie to those of C |
| `PluralSyntax.WriteRoundTrip` | src/gettext_plural_form.cpp:188-194 | every expression can be written with parentheses only where needed, and parses back to its value |
| `PluralSyntax.SameTextSameValue` | src/gettext_plural_form.cpp:38-194 | forms written alike have the same value at every n |
| `PluralLaws.ReadAsC` | src/gettext_plural_form.cpp:15-194 | an expression of C, written with its operators as text, parentheses where the precedence of C demands them and the same gap between all tokens, compiles to its value in unsigned 64-bit arithmetic; its operators, their precedence and what they compute are written out apart from the compiler |
| `PluralLaws.LeftFirst` | src/gettext_plural_form.cpp:38-160 | of two operators the left one comes first, as if in parentheses, unless the right one binds more tightly: a % b == c is (a % b) == c at every n |
| `PluralLaws.RightFirst` | src/gettext_plural_form.cpp:38-160 | and then the right one does |
| `PluralLaws.NumbersRead` | src/gettext_plural_form.cpp:83-94 | numbers have their decimal value; a minus counts modulo 2^64, and from 2^64 on all are the largest there is |
| `PluralLaws.SumAndDifference` | src/gettext_plural_form.cpp:15-36 | subtraction undoes addition modulo 2^64 |
| `PluralLaws.QuotientAndRest` | src/gettext_plural_form.cpp:15-36 | quotient and rest make up the dividend with the rest below the divisor, and both are 0 for the divisor 0 |
| `PluralLaws.Opposites` | src/gettext_plural_form.cpp:15-36 | each comparison is the negation of its opposite |
| `PluralReadings.AcceptedExactly` | src/gettext_plural_form.cpp:38-194 | a text is accepted exactly if all of it, but for blanks around it, can be read as a form that does not fail; forms may lack operands, which read as 0, and arms: the end of the text, an unclosed parenthesis, or a condition without a colon |
| `PluralReadings.CallFailsExactly` | src/gettext_plural_form.cpp:21-25 | the function of an accepted text has at n the value of any form the text reads as, and calling it fails exactly where the evaluation comes to an arm that is left out |
| `PluralReadings.TotalWithAllArms` | src/gettext_plural_form.cpp:168-181 | with all arms there it has a value everywhere |
| `PluralReadings.ReadsAs` | src/gettext_plural_form.cpp:38-186 | whatever the parser takes of a text at a level, unless it got stuck at an operator, is a form of that level |
| `PluralReadings.UnclosedArm` | src/gettext_plural_form.cpp:96-110 | an arm with an unclosed parenthesis: the value is 2 at 0 and none elsewhere |
| `PluralReadings.EmptyParentheses` | src/gettext_plural_form.cpp:83-94 | empty parentheses are accepted and have the value 0 |
| `PluralReadings.ArmNeverMet` | src/gettext_plural_form.cpp:168-181 | an arm that is left out and never evaluated leaves the function total |
| `Chat.ChatBuffer.AddLine` | src/chat.cpp:34-53 | the buffer keeps the formatted lines of the messages in order, drops the oldest over the limit, and follows the bottom if it was there; else the view does not move unless lines are dropped |
| `Chat.ChatBuffer.DeleteOldest` | src/chat.cpp:81-113 | the oldest messages go, and the lines of as many messages from the top, which are their own with at least three columns; the view stays on the same lines as far as they are left |
| `Chat.ChatBuffer.SkipOne` | src/chat.cpp:91-98 | the lines deleted for one message: one and the unmarked ones after it |
| `Chat.LinesOfOneAreOldest` | src/chat.cpp:91-98 | these are the oldest message's lines exactly if it has any, or no lines are left |
| `Chat.NarrowLosesNext` | src/chat.cpp:81-113 | a message with a name and one without in two columns: deleting the first takes the line of the second |
| `Chat.NothingFits` | src/chat.cpp:244-258 | a message is given no line at all exactly if there are no columns, or a name and at most two |
| `Chat.ChatBuffer.Reformat` | src/chat.cpp:128-182 | another width formats every message anew, and the view stays at the bottom or goes to the first line of the message it showed; if only the height changes the lines stay, and a view that is not at the bottom goes to the top |
| `Chat.HigherGoesToTop` | src/chat.cpp:128-182 | a view of two lines in the middle of five that goes to the top when one more row is shown, though it could stay |
| `Chat.ChatBuffer.ScrollAbsolute` | src/chat.cpp:198-208 | the position is limited to the scroll range |
| `Chat.FormatChatLine` | src/chat.cpp:215-411 | at least one line; the fragments in order spell the name prefix and the text, with or without links; fragments follow one another from the hanging indentation within the columns; only the first line is marked; a line of the text that ends in the last column ends after a whitespace or holds none behind its first character, or ends inside or behind a link, and one that is not full ends after the last whitespace that fits; every link that is looked for is given, and a fragment's link is a link of the text with the fragment a part of it; the loops end |
| `ChatText.FormattedLines` | src/chat.cpp:215-411 | what that means for each line of a message |
| `ChatWords.LayOneWorded` | src/chat.cpp:268-305 | one round of the layout ends no line in the middle of a word, but inside links or words that do not fit a line |
| `ChatWords.NowReady` | src/chat.cpp:307-401 | nor do the fragments made for the rest of a line |
| `ChatWords.LayOneShows` | src/chat.cpp:268-305 | and no round loses a link |
| `Chat.HangingMeans` | src/chat.cpp:244-258 | further lines begin behind the name if it takes at most half the width, else in the third column |
| `Chat.LayOut` | src/chat.cpp:268-305 | the inner loop lays all fragments out and keeps the layout invariant |
| `Chat.LayOutFirst` | src/chat.cpp:270-304 | one fragment fits or is split at the last column, and a full or marked line is ended |
| `ChatLayout.LayOneKeeps` | src/chat.cpp:268-305 | no round loses a character, leaves the columns or breaks a line where it may not, and the rounds end |
| `ChatLayout.LayOneLinked` | src/chat.cpp:268-305 | nor separates a part of a link from that link |
| `ChatLayout.ProduceFragments` | src/chat.cpp:307-401 | the fragments made for one line spell the next stretch of text; only the last one ends the line, at the end of the text, at the full width or after the last whitespace that fits; it is a link, or ends with a whitespace unless its words have none; fragments with a link are links of the text from end to end, and each link found is given |
| `ChatLayout.NextFragment` | src/chat.cpp:318-383 | the next fragment: up to a link; at a link exactly that link; else up to the last whitespace within reach, unless there is none or the text ends there |
| `ChatLayout.NextLinkIsFirst` | src/chat.cpp:325-331 | what is looked for is the first link in the rest of the text exactly if no insecure one comes before a secure one |
| `ChatLayout.NextLinkStays` | src/chat.cpp:325-331 | from any place up to it the same link is found, so none is missed by stopping in between |
| `ChatLayout.PlainLinkPassedOver` | src/chat.cpp:325-331 | a text whose first link is passed over |
| `ChatLayout.LinkLength` | src/chat.cpp:345-373 | a link ends at whitespace, a quote or a semicolon, or right before a comma or stop in front of those, and never ends in one that is followed by them |
| `ChatLayout.ScanWords` | src/chat.cpp:333-338 | the last whitespace within reach |
| `Stacks.FitsForetells` | src/inventory.cpp:410-447 | itemFits tells what addItem leaves over |
| `Stacks.AddConserves` | src/inventory.cpp:373-408 | adding to a stack keeps the number of items of every kind |
| `Stacks.AddFillsUp` | src/inventory.cpp:373-408 | a stack is filled up to its maximum and no further, and other kinds are left alone |
| `Stacks.TakeConserves` | src/inventory.cpp:456-474 | taking gives the lesser of what is asked for and what is there, and keeps the number |
| `Stacks.AddToListConserves` | src/inventory.cpp:672-709 | adding to a list keeps the number of items of every name, and of every name and metadata |
| `Stacks.AddToListRest` | src/inventory.cpp:672-709 | addItem leaves nothing exactly with an empty slot or enough room in stacks of the kind; else it leaves what exceeds that room |
| `StackLaws.AddsToStack` | src/inventory.cpp:373-408 | an empty slot takes the item itself, with its wear and metadata; a stack only grows, and what is left is the item itself |
| `StackLaws.ListAdds` | src/inventory.cpp:672-709 | so after addItem every used slot holds what it held, every other one is empty or holds the item added, and what is left over is that item, wear and metadata included |
| `StackLaws.Moves` | src/inventory.cpp:821-863 | after a move each slot holds what it held, or, if it was empty or the two were exchanged, what came from the other |
| `StackLaws.MovesAway` | src/inventory.cpp:798-819 | the same for a move to anywhere in another list |
| `StackLaws.MovesWithin` | src/inventory.cpp:798-819 | and within one list |
| `StackLaws.Removes` | src/inventory.cpp:767-785 | removing leaves each slot what it was or empties it, and gives the item of the last slot that has one |
| `StackLaws.MovesStayValid` | src/inventory.cpp:373-474 | a stack has a name exactly if it is not empty, also after moves |
| `StackLaws.ListStaysValid` | src/inventory.cpp:672-709 | and after adding to a list |
| `Stacks.RemoveRightCounts` | src/inventory.cpp:767-785 | removeItem takes the lesser of what is wanted and what is there, and as many are gone from the list; no u16 count wraps |
| `Stacks.RemoveRightOthers` | src/inventory.cpp:767-785 | and nothing of any other kind |
| `Inventories.InventoryList.AddItem` | src/inventory.cpp:672-709 | used slots from the left, then the first empty one |
| `Inventories.InventoryList.AddItemAt` | src/inventory.cpp:711-720 | one slot takes what fits |
| `Inventories.InventoryList.ChangeItem` | src/inventory.cpp:652-663 | the slot is replaced and its old stack returned |
| `Inventories.InventoryList.TakeItem` | src/inventory.cpp:787-796 | a slot gives up to the count asked for |
| `Inventories.InventoryList.RoomForItem` | src/inventory.cpp:735-746 | for a non-empty item there is room exactly when addItem leaves nothing over; for an empty one, when there is a slot |
| `Inventories.InventoryList.ContainsItem` | src/inventory.cpp:748-765 | contained exactly when the list holds as many of the name, and of the metadata if it has to match |
| `Inventories.InventoryList.RemoveItem` | src/inventory.cpp:767-785 | the list is walked from its end, and the full count is returned exactly when containsItem holds |
| `Inventories.InventoryList.MoveItem` | src/inventory.cpp:821-863 | the two slots afterwards, for one list or two; all others stay, and indexes out of range change nothing |
| `Stacks.MoveSlotsConserves` | src/inventory.cpp:821-863 | a move between slots keeps the number of items of every kind |
| `Stacks.MoveSlotsMoves` | src/inventory.cpp:821-863 | without a swap what is moved leaves one slot and reaches the other, at most the count asked for; with one the stacks are exchanged |
| `Inventories.InventoryList.MoveItemSomewhere` | src/inventory.cpp:798-819 | the list moved to and the source slot afterwards, for one list or two |
| `Stacks.MoveAwayConserves` | src/inventory.cpp:798-819 | moving to another list keeps the number of items of every kind |
| `Stacks.MoveWithinConserves` | src/inventory.cpp:798-819 | so does moving within one list |
| `Stacks.BackWithinBounded` | src/inventory.cpp:813-818 | putting the leftover back cannot wrap a u16, even if the source slot was given items of its own list |
| `InventoryMoves.IMoveAction.SwapDirections` | src/inventorymanager.cpp:141-146 | source and destination change places |
| `InventoryMoves.IMoveAction.MoveToSlot` | src/inventorymanager.cpp:325-477 | for any answers of the callbacks the two slots end up as told by what fits and what is allowed: a limited move, a swap, or nothing; out of range or onto itself nothing changes |
| `InventoryMoves.IMoveAction.AskCallbacks` | src/inventorymanager.cpp:383-426 | a swap is allowed exactly when both directions are; if it is wanted and not allowed, nothing may move |
| `InventoryMoves.IMoveAction.PerformMove` | src/inventorymanager.cpp:466-477 | the stacks are swapped exactly when that was allowed, and no more moves than fits |
| `MoveRules.SlotMoveConserves` | src/inventorymanager.cpp:325-477 | a slot move keeps the number of items of every kind over one list or two |
| `MoveRules.WhatDoesNotFitSwaps` | src/inventorymanager.cpp:362-380 | if none of the requested items fits, nothing of the whole stack does |
| `MoveRules.WithinAnswers` | src/inventorymanager.cpp:383-426 | no more leaves an inventory or enters one than its callback answered, in both directions of a swap; and as much is moved as fits and all answers allow |
| `InventoryMoves.IMoveAction.OfferSlot` | src/inventorymanager.cpp:290-296 | one slot is offered the stack, for one list or two; if apply returns early nothing changes, and the count moved stays that of the call before |
| `InventoryMoves.IMoveAction.AddTo` | src/inventorymanager.cpp:290-306 | and what that count says is taken off the count left, in 16 bits; the result says whether the source's assertion on the two held |
| `InventoryMoves.IMoveAction.AddToWhere` | src/inventorymanager.cpp:307-316 | one of the loops offers the stack to the slots it finds used, or empty, while any are left to be moved |
| `InventoryMoves.IMoveAction.MoveAnywhere` | src/inventorymanager.cpp:270-323 | the whole shift-click, from one list to another or within one, for any count and any answers; no item of any kind is lost or made, and the action's fields are as before |
| `ShiftClicks.ClickConserves` | src/inventorymanager.cpp:270-323 | no run of slot offers changes the number of items of any kind, also with a count that wraps and the count moved by an earlier call |
| `ShiftClicks.AtMostRequested` | src/inventorymanager.cpp:270-323 | between two lists no more is taken than was asked for, for any count; within one list that holds if the source's assertion does |
| `ShiftClicks.SoundExactly` | src/inventorymanager.cpp:290-357 | the assertion holds throughout, and no count wraps, exactly if at the source slot no more was moved last than is left there, and, once the source is used up with some left, what was moved last can be taken off that again for each slot still to come, or until nothing is left |
| `ShiftClicks.UpToTheStack` | src/inventorymanager.cpp:290-357 | for a count up to the size of the stack only the first of these matters, so between two lists it always holds |
| `ShiftClicks.MoreThanRequested` | src/inventorymanager.cpp:290-357 | within a list of stacks of 95, 10, 95 and 95 out of 99, a move of 5 of the 10 moves all of them, and the count wraps around |
| `ShiftClicks.ClickIsAddToList` | src/inventorymanager.cpp:270-323 | if the callbacks allow everything, a move to another list does to it what addItem does |
| `EmergeProtocol.ExecuteKeepsInv` | src/emerge.cpp:275-542 | every interleaving of requests, pops, rounds, exceptions and stops keeps the invariant |
| `EmergeProtocol.OnePlaceEach` | src/emerge.cpp:275-434 | in every reachable state a position is enqueued exactly when it has a place in some worker's queue, and it has only one |
| `EmergeProtocol.PeerCountersExact` | src/emerge.cpp:367-434 | in every reachable state a peer's counter is the number of positions it requested first |
| `EmergeProtocol.CallbacksRunOnce` | src/emerge.cpp:494-542 | no callback runs more often than it was accepted, and with all queues empty it has run as often, unless its position is over the map limit or a worker threw |
| `EmergeProtocol.UnforcedRunsStayWithinLimits` | src/emerge.cpp:367-393 | without forced requests the queue stays within the total limit, and each peer within its own |
| `EmergeLaws.AcceptedExactly` | src/emerge.cpp:367-393 | a request that is not forced is accepted exactly if the queue has room and its peer has fewer entries than the limit of the request's own kind, for blocks to generate or from the disk; for the server itself, fewer than half of the whole |
| `EmergeLaws.RequestMeans` | src/emerge.cpp:291-411 | a refused request leaves the queue alone; a new entry goes to the end of the first shortest queue; a joined one keeps its first peer, may be generated if any of its requests allowed that, and has all their callbacks |
| `EmergeLaws.PermissionStays` | src/emerge.cpp:367-411 | over any run an entry that may be generated may be until it leaves the queue |
| `EmergeLaws.TakesFirst` | src/emerge.cpp:529-542 | a worker takes the front of its own queue with the callbacks of its entry |
| `EmergeLaws.ServedInOrder` | src/emerge.cpp:291-542 | over any run, whatever is interleaved, positions leave a queue in the order in which they came to it |
| `EmergeLaws.OverTheLimit` | src/mapblock.h:578-587 | which positions are too far out: from 1938 blocks on in any direction |
| `EmergeProtocol.InvCanTake` | src/emerge.cpp:414-434 | a position taken from a queue always has its entry, and its counter is not 0 |
| `Emerge.EmergeManager.EnqueueBlockEmergeEx` | src/emerge.cpp:291-318 | a request is refused exactly by the limits; otherwise it joins the entry of its position or goes to the first shortest queue |
| `Emerge.EmergeManager.PushBlockEmergeData` | src/emerge.cpp:367-411 | the entry and the counter, which is created even for a refused request |
| `Emerge.EmergeManager.PopBlockEmergeData` | src/emerge.cpp:414-434 | the entry is removed and counted down, or nothing changes |
| `Emerge.EmergeManager.GetOptimalThread` | src/emerge.cpp:437-455 | the first of the shortest queues |
| `Emerge.EmergeThread.PopBlockEmerge` | src/emerge.cpp:529-542 | a refinement of the protocol's pop |
| `Emerge.EmergeThread.Process` | src/emerge.cpp:705-762 | a refinement of its finish and abort: positions over the limit are skipped, else the callbacks run unless an exception leaves the loop |
| `Emerge.EmergeThread.CancelPendingItems` | src/emerge.cpp:494-509 | a refinement of its stop: the worker's queue is emptied and all its callbacks run as cancelled |
| `PathComponents.ScanIsEvaluation` | src/filesys.cpp:777-828 | counting unpaid ".." from the right is evaluating components from the left with a stack |
| `PathComponents.DotsMean` | src/filesys.cpp:777-828 | what the evaluation is: anywhere in a path "." changes nothing, a name followed by ".." can be left out, names alone stay, and a ".." at the start leads out |
| `PathComponents.SlashesSeparate` | src/filesys.cpp:777-828 | components are what stands between slashes |
| `Paths.RenderedBack` | src/filesys.cpp:807-828 | a path without delimiters in a row or at its end is told by its components |
| `Paths.RemoveRelativePathComponents` | src/filesys.cpp:777-828 | the scan ends; the result's components are the stack evaluation, or the result is empty if a pop is impossible; no component is "." or "..", it starts with a delimiter exactly if the input did, and has no more delimiters in a row; if the input has none in a row the result is exactly the evaluation with one delimiter between any two names |
| `Paths.NormaliseTwice` | src/filesys.cpp:777-828 | a result is a fixed point |
| `Collision.AxisAlignedCollision` | src/collision.cpp:91-193 | a reported axis with time t >= 0 means that the facing faces touch at t, but for a box without size inside along that axis, and the boxes overlap on the other axes; boxes that are apart and overlap within the step are reported exactly if one axis is entered strictly last, on that axis with its time; boxes that overlap already are reported on the first of Y, X and Z along which they approach with a depth below half the size and below 2, and else not at all |
| `Collision.TestAxis` | src/collision.cpp:112-138 | the part of the code for one axis |
| `Collision.OnlyLastPasses` | src/collision.cpp:112-193 | the test of an axis succeeds exactly if it is entered strictly last, whatever order they come in |
| `Collision.OverlappingPasses` | src/collision.cpp:112-138 | the depth up to which boxes that overlap already are reported on an axis |
| `Collision.EdgeMissed` | src/collision.cpp:112-193 | a cube that comes along the diagonal and is inside another after 1.5 of a step of 2, with no test that succeeds |
| `Sweeps.FacingTouches` | src/collision.cpp:113-123 | facing spans touch at the entry time, but for a moving span without size inside the static one |
| `Sweeps.PointInside` | src/collision.cpp:113-123 | such a span, for which the faces do not touch |
| `Sweeps.EnteredAfter` | src/collision.cpp:112-138 | spans that are apart overlap exactly from the entry time on |
| `Eviction.Map.TimerUpdateLimited` | src/map.cpp:348-408 | the oldest blocks are taken, only while there are too many or they are too old; all taken ones go but those referenced or not saved; the count is then within the limit but for these; only empty sectors go |
| `Eviction.Map.TakeBlocks` | src/map.cpp:360-391 | the loop over the priority queue |
| `Eviction.CountLeft` | src/map.cpp:348-391 | what is loaded afterwards: the queue and the blocks that stay against the limit |
| `Eviction.EvictedExactly` | src/map.cpp:360-391 | a block goes exactly if it was taken, has no references, and is saved if it is modified and may be |
| `Eviction.Map.TimerUpdateUnlimited` | src/map.cpp:304-347 | without a limit a sector goes unless a block in it is referenced or not too old, with all blocks that could not be saved |
| `Eviction.UnsavedStaysWithOthers` | src/map.cpp:316-345 | there a block whose save failed stays exactly if another block of its sector does |
| `Eviction.UnloadedExactly` | src/map.cpp:304-347 | without a limit a block goes exactly if it has no references, is too old and is saved where needed, or if all blocks of its sector are too old and have no references |
| `Eviction.UnsavedAloneIsLost` | src/map.cpp:316-345 | a block whose save failed and that is lost |
| `Eviction.Map.UnloadUnreferencedBlocks` | src/map.cpp:426-429 | exactly the referenced blocks and those not saved stay |
| `Eviction.Map.DeleteSectors` | src/map.cpp:431-442 | the sectors go with their blocks, and the cached sector always exists |
| `NodeCodec.IdIdMapping.Clear` | src/mapblock.cpp:60-65 | resetting the dirty entries resets all |
| `NodeCodec.GetBlockNodeIdMapping` | src/mapblock.cpp:321-346 | contents are numbered in the order of their first appearance, and each number has its content's name |
| `NodeCodec.CorrectBlockNodeIds` | src/mapblock.cpp:348-386 | every node gets the id its number's name has, and the cache changes no result; it fails exactly if a node has no name or there are more unregistered names than free ids, and those names get the first free ids, with no other change to the registered ones |
| `NodeCodec.SerializeBulk` | src/mapnode.cpp:577-609 | three planes, with contents high byte first, from a full block or from one node |
| `NodeCodec.DeSerializeBulk` | src/mapnode.cpp:612-664 | the planes are read back for both content widths, and other widths are refused |
| `NodeIds.PlanesRead` | src/mapnode.cpp:577-664 | reading the planes gives the nodes written |
| `NodeIds.PlanesHold` | src/mapnode.cpp:577-609 | where in the bytes the high and low byte of a content and the two parameters are |
| `NodeIds.NarrowRead` | src/mapnode.cpp:634-661 | contents of one byte: up to 0x7F as they are, above that twelve bits with the last four in the second parameter |
| `MapBlocks.MapBlock.TryShrinkNodes` | src/mapblock.cpp:253-277 | one node is kept exactly if all are equal, but nothing is done on a client; no node changes |
| `MapBlocks.MapBlock.ExpandNodesIfNeeded` | src/mapblock.cpp:279-284 | all nodes are kept singly, and no node changes |
| `MapBlocks.MapBlock.StoreNodes` | src/mapblock.cpp:416-442 | bytes and names from which every node of the block can be read, however the block is kept |
| `MapBlocks.MapBlock.LoadNodes` | src/mapblock.cpp:502-646 | every node has the id its stored name stands for; loading fails exactly on other widths, a node without a name, or more new names than free ids; a block with one name is shrunk if all its nodes are equal |
| `MapBlocks.RoundTrip` | src/mapblock.cpp:321-386 | a node read back is the one stored exactly if its name maps back to its content |
| `MapBlocks.StoreAndLoad` | src/mapblock.cpp:321-386 | storing and loading restores all nodes of any block whose names map back |
| `NodeTimers.NodeTimerList.Insert` | src/nodetimer.h:78-86 | index and next trigger time after adding a timer, for any trigger time |
| `NodeTimers.NodeTimerList.Remove` | src/nodetimer.h:60-77 | and after deleting one |
| `NodeTimers.NodeTimerList.Set` | src/nodetimer.h:87-91 | the timer set is read back as it was, no other changes, and the next trigger time stays right if the new one is not that of the mark of an empty list |
| `NodeTimers.NodeTimerList.Get` | src/nodetimer.h:51-59 | the time left is the time to the trigger |
| `NodeTimers.NodeTimerList.Clear` | src/nodetimer.h:92-97 | no timers are left |
| `NodeTimers.NodeTimerList.Step` | src/nodetimer.cpp:112-134 | while the next trigger time is right, exactly the due timers are returned, each once, in the order of their times, and exactly the others stay; else the step does that or returns at once, as the next trigger time says |
| `TimerRuns.ElapsedSinceSet` | src/nodetimer.cpp:120-127 | a timer that fires has the time since it was set added to what had elapsed, and that is at least its timeout |
| `NodeTimers.SkipIsRight` | src/nodetimer.cpp:116-118 | the early return is right exactly when the first trigger time is not taken for the mark of an empty list |
| `NodeTimers.MarkIsMissed` | src/nodetimer.cpp:116-118 | a timer for 1 that is set at time 0 with 2 elapsed: it is due, and the step returns early |
| `TimerRuns.FiresWhenReached` | src/nodetimer.cpp:112-134 | over any run of steps and calls that set or remove timers, a timer that no event names fires in the first step that reaches its time |
| `TimerRuns.FiresOnce` | src/nodetimer.cpp:112-134 | and in no other |
| `TimerRuns.FiresByThen` | src/nodetimer.cpp:112-134 | and once a step reaches its time it has fired |
| `TimerRuns.FiresAfterSet` | src/mapblock.cpp:174-190 | a timer set, or set again by its callback, fires in the first step that reaches the time it then has left |

## Left out

- Item strings, aliases in stored items, recipe outputs, replacements, `decrementInput` and the
  removal of recipes (`clearCraftsByOutput` and the like): what they compute is not a search.
- The definition database behind names, groups and stack sizes: it is a parameter.
- The string hash of the craft index and the lattice values of the noise are arbitrary functions.
- CraftManager.CraftDefManager.RegisterCraft: the index of the definitions by output is not kept; it
  serves the queries for recipes and their removal.
- Rounding of floating-point numbers: noise, collision, timers and unloading use real numbers.
- The priority of fuel recipes is a stored field: the source's constructor tests the name of the
  recipe before it is set, so all of them have the same one.
- Noise maps with a persistence map, and `setSize`, `setSpreadFactor` and `setOctaves`.
- RandomRange.PcgRandom.Range: the loop is assumed to meet an accepted output, which depends on the
  generator; `bytes` and `randNormalDist` are not modelled.
- The header and the selection of the plural form by `GettextPluralForm`; characters are compared as
  in the C locale, and `wcstoul` saturates as for 64 bits.
- Colours and the rest of `EnrichedString` in chat lines, the prompt with its history, and names
  with embedded zero characters.
- InventoryMoves.IMoveAction.MoveToSlot: callbacks do not change the inventories, and the lists of
  the action are given; reports after a move and rollback are not modelled.
- InventoryMoves.IMoveAction.AskCallbacks: the answer -1, for an infinite source or destination, is
  not modelled.
- The modified and resize-lock flags of inventory lists, and drop and craft actions.
- Map generation, loading and events of the emerge workers: their outcomes are arbitrary.
- Emerge.EmergeThread.RunCompletionCallbacks: callbacks are entered in a record, not run; what is
  proved of them is proved of that record.
- Emerge.EmergeThread.Process: which outcome the callbacks are told is not recorded, only that they
  run, or are cancelled.
- Delimiters of Windows paths, and the path functions that call the operating system or only compare
  prefixes.
- `collisionMoveSimple`: tolerances and a cap on iterations. A swept test with a negative entry time
  is only stated to be within the margin.
- Metrics, profiling and the order of deleted sectors when unloading blocks; the blocks of a sector
  are kept in one map of positions.
- Compression, streams, versions below 22, node metadata and static objects of stored blocks. The
  name of a content is a function of its id, and the bytes are read completely.
- NodeCodec.GameDef.AllocateUnknownNodeId: the ids still free are a given list, and a new name gets
  the first of them.
- NodeTimers.NodeTimerList.Step: timers with equal times are not ordered further; writing and reading
  timers is not modelled.
- Finite tables, settings, network code, rendering and the scripting interface.
