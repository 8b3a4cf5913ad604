# Advent of Code 2018 solvers, modelled in Dafny

This project models the puzzle solvers of a Swift Advent of Code 2018 repository. Each solver is a small program that reads its puzzle input and then runs integer, array, dictionary and grid computations. The model keeps those computations, proves the properties the code relies on, and records where the code does not do what it evidently means to do.

One module per source file:

| module | file | models |
|---|---|---|
| `Wrappers` | `wrappers.dfy` | `Option`, for results that can be missing and for the paths where the program stops with a fatal error |
| `PriorityQueues` | `priority_queue.dfy` | `Utilities/PriorityQueue.swift`: a sorted array of (item, priority) entries with stable insertion |
| `Combat` | `cave.dfy` | Day 15: the cave grid, reading order, parsing, the best-first path search, moves, attacks and rounds, as functions |
| `CaveBattle` | `cave_battle.dfy` | Day 15: the `Cave` class, whose methods update the grid in place and are proved against `Combat` |
| `Frequencies` | `frequencies.dfy` | Day 1 (both copies): the cycling shift iterator, the final frequency and the first repeated frequency |
| `BoxIds` | `box_ids.dfy` | Day 2: letter tallies, the checksum and the search for the two ids that differ in one place |
| `FabricClaims` | `fabric.dfy` | Day 3: the `Fabric` class, the claim counts with their cache, overlapping cells and the clean claim |
| `Polymer` | `polymer.dfy` | Day 5: units, reacting pairs and the in-place reduction with a moving head |
| `LicenseTree` | `license_tree.dfy` | Day 8: the preorder tree parser, its round trip, `totalMetadata` and `value` |
| `Device` | `device.dfy` | Day 16: the 16 opcodes of the register machine and the count of samples matching three or more |
| `Recipes` | `scoreboard.dfy` | Day 14: the recipe scoreboard, its steps, `finalScore` and the pattern search |
| `Pots` | `pots.dfy` | Day 12: the row of pots, padding and compaction, the rule step and the plant value |
| `PowerGrid` | `power_grid.dfy` | Day 11: the fuel-cell power formula, square totals and the searches for the largest square |
| `Carts` | `carts.dfy` | Day 13: directions, carts, reading the track, fixing the curves and moving a cart |
| `CartRuns` | `cart_runs.dfy` | Day 13: `firstCollision` and `lastCart`, as written and corrected |
| `CartExamples` | `cart_examples.dfy` | Day 13: small tracks on which the written and the corrected tick differ |
| `Steps` | `steps.dfy` | Day 7: the dependency map and the alphabetically first topological order |
| `Workers` | `workers.dfy` | Day 7: the second-by-second scheduling of steps over several workers |
| `Coordinates` | `coordinates.dfy` | Day 6: Manhattan distance, the labelled box, finite areas and the safe region |
| `Guards` | `guards.dfy` | Day 4: replaying the guard log, minutes asleep and the two tallies |
| `Stars` | `stars.dfy` | Day 10: 32-bit point stepping, bounding boxes and the two convergence loops |
| `Marbles` | `marbles.dfy` | Day 9: the marble circle, its game and the linked circle as a class |

Where a solver updates state step by step, the model does the same: a method with loop invariants, proved equal to a function of its inputs. Properties of that function are then proved as lemmas. Loops that the source runs with no bound (`while true` and similar) take a `fuel` bound and report when it runs out. Inputs arrive already parsed: regular expressions, `Int(String)` and line reading are not modelled.

## Model

| member | source | states |
|---|---|---|
| PriorityQueues.InsertIndex | AdventOfCode/Sources/Utilities/PriorityQueue.swift:26-37 | the insertion point of `push`: every entry before it has priority at most `p`, the entry at it (if any) has strictly greater priority |
| PriorityQueues.InsertKeepsSorted | AdventOfCode/Sources/Utilities/PriorityQueue.swift:25-40 | a push keeps priorities non-decreasing, so the head always has minimum priority |
| PriorityQueues.InsertAddsOne | AdventOfCode/Sources/Utilities/PriorityQueue.swift:39 | a push adds exactly one entry and never merges duplicates (multiset grows by the pushed pair) |
| PriorityQueues.InsertIsFifo | AdventOfCode/Sources/Utilities/PriorityQueue.swift:28-33 | among equal priorities the pushed item goes after all items already queued (FIFO) |
| PriorityQueues.AfterInsertIndex | AdventOfCode/Sources/Utilities/PriorityQueue.swift:29 | no entry from the insertion point on has the pushed priority |
| PriorityQueues.InsertKeepsOthers | AdventOfCode/Sources/Utilities/PriorityQueue.swift:25-40 | the items queued at every other priority are unchanged, in order |
| PriorityQueues.InsertItems | AdventOfCode/Sources/Utilities/PriorityQueue.swift:39 | the queued items grow by the pushed item only |
| PriorityQueues.PriorityQueue.constructor | AdventOfCode/Sources/Utilities/PriorityQueue.swift:12-14 | a new queue holds no entries |
| PriorityQueues.PriorityQueue.IsEmpty | AdventOfCode/Sources/Utilities/PriorityQueue.swift:8-10 | empty exactly when there are no entries |
| PriorityQueues.PriorityQueue.Pop | AdventOfCode/Sources/Utilities/PriorityQueue.swift:16-23 | an empty queue gives `None` and stays empty; otherwise the head item is returned and only the head entry is removed |
| PriorityQueues.PriorityQueue.Push | AdventOfCode/Sources/Utilities/PriorityQueue.swift:25-40 | the new entries are `Insert(old entries)`: the scan loop finds the first strictly greater priority |
| PriorityQueues.MixedInputOrder | AdventOfCode/Tests/UtilitiesTests/PriorityQueueTests.swift:69-95 | pushes (1,p1),(2,p3),(3,p2),(4,p2) pop as 1,3,4,2 and then nothing |
| PriorityQueues.SamePrioritiesInOrder | AdventOfCode/Tests/UtilitiesTests/PriorityQueueTests.swift:97-123 | four pushes at one priority pop in insertion order |
| Combat.ReadingOrderIsStrictTotal | AdventOfCode/Sources/Day15/main.swift:17-25 | `<` on points (row, then column) is irreflexive, asymmetric, transitive and total |
| Combat.SurroundingAscends | AdventOfCode/Sources/Day15/main.swift:43-45 | `surrounding` (up, left, right, down) is strictly ascending in reading order |
| Combat.Put | AdventOfCode/Sources/Day15/main.swift:62-80 | writing one cell keeps the shape, sets that cell and leaves every other cell alone |
| Combat.EmptyAmongMeaning | AdventOfCode/Sources/Day15/main.swift:494-500 | the neighbour filter keeps exactly the listed points that are Empty grid cells |
| Combat.RelaxCons | AdventOfCode/Sources/Day15/main.swift:502-512 | a neighbour is taken (cost, queue entry, `cameFrom` link) only when it has no cost yet; an already costed one is skipped |
| Combat.RelaxProgress | AdventOfCode/Sources/Day15/main.swift:502-512 | the inner loop only discovers points among the neighbours, and leaves the frontier alone when it discovers none |
| Combat.NextProgress | AdventOfCode/Sources/Day15/main.swift:464-513 | each iteration discovers a new cell or shortens the frontier, so the search loop ends |
| Combat.DiscoveredQueued | AdventOfCode/Sources/Day15/main.swift:507-510 | discovering a point queues it once, gives it a cost and links it to the current point |
| Combat.Discover | AdventOfCode/Sources/Day15/main.swift:502-512 | discovering an Empty neighbour keeps the search invariant: discovered points are `from` or Empty, queued at most once, linked back to `from` |
| Combat.RelaxPreserves | AdventOfCode/Sources/Day15/main.swift:487-512 | the inner loop keeps the invariant and discovers every Empty neighbour of the current point |
| Combat.PopKeeps | AdventOfCode/Sources/Day15/main.swift:468 | popping the head leaves it discovered and no longer queued, the invariant pending only it |
| Combat.Step | AdventOfCode/Sources/Day15/main.swift:464-513 | one iteration of the search loop keeps the invariant |
| Combat.StartInv | AdventOfCode/Sources/Day15/main.swift:458-462 | the initial frontier `[from]` with cost 0 satisfies the invariant |
| Combat.ReconstructWalk | AdventOfCode/Sources/Day15/main.swift:473-484 | following `cameFrom` back from a discovered point and reversing gives a walk from `from` through Empty cells |
| Combat.RunSound | AdventOfCode/Sources/Day15/main.swift:464-517 | a path the loop returns is a walk from `from` to `to` |
| Combat.WalkStaysDiscovered | AdventOfCode/Sources/Day15/main.swift:464-516 | once the frontier is empty and every popped point expanded, every walk from `from` stays inside the discovered points |
| Combat.RunComplete | AdventOfCode/Sources/Day15/main.swift:515-516 | the loop returns nil only when `to` is unreachable |
| Combat.SearchCorrect | AdventOfCode/Sources/Day15/main.swift:455-517 | `shortestPath` finds a path exactly when a walk exists, and what it returns starts at `from`, ends at `to`, steps orthogonally through Empty cells |
| Combat.SearchToSelf | AdventOfCode/Sources/Day15/main.swift:472-484 | a search from a point to itself returns `[from]` |
| Combat.RowTargetsStep | AdventOfCode/Sources/Day15/main.swift:194-220 | each cell of the scan adds its Empty neighbours when it holds an enemy, and nothing otherwise |
| Combat.RowTargetsMeaning | AdventOfCode/Sources/Day15/main.swift:194-220 | a point is a target of a row prefix iff it is an Empty cell beside an enemy in that prefix |
| Combat.RowInGridTargets | AdventOfCode/Sources/Day15/main.swift:192-222 | targets found in a row are among the targets of every row prefix containing it |
| Combat.GridTargetsRow | AdventOfCode/Sources/Day15/main.swift:192-222 | every target of the grid scan comes from one of the scanned rows |
| Combat.TargetsBesideFoes | AdventOfCode/Sources/Day15/main.swift:173-275 | `nextElfMovement`/`nextGoblinMovement` list exactly the Empty cells beside an enemy |
| Combat.InsertPoint | AdventOfCode/Sources/Day15/main.swift:134 | one insertion step of the sort adds exactly that point |
| Combat.InsertPointSorted | AdventOfCode/Sources/Day15/main.swift:134 | insertion keeps reading order and adds nothing else |
| Combat.SortPoints | AdventOfCode/Sources/Day15/main.swift:134 | `targetPoints.sort()` is in reading order and a permutation (duplicates kept) |
| Combat.BestFromSourcesNone | AdventOfCode/Sources/Day15/main.swift:151-160 | the inner loop has no best path iff there was none and no source reaches the target |
| Combat.NoneFoundSources | AdventOfCode/Sources/Day15/main.swift:151-154 | no source reaches the target iff the first does not and none of the rest does |
| Combat.BestFromSourcesFound | AdventOfCode/Sources/Day15/main.swift:151-160 | the inner loop's best path is the previous best or a path the search returns |
| Combat.BestFromSourcesShortest | AdventOfCode/Sources/Day15/main.swift:156-159 | with strict `<`, no found path is shorter than the kept one, and the best never gets longer |
| Combat.BestFromSourcesFirst | AdventOfCode/Sources/Day15/main.swift:151-159 | the inner loop keeps its best, or replaces it by a strictly shorter path that is the first of its length over the sources, every earlier source giving none or a strictly longer one |
| Combat.NoneFoundSplit | AdventOfCode/Sources/Day15/main.swift:150-161 | nothing found over all targets iff nothing for the first and nothing for the rest |
| Combat.NoneShorterJoin | AdventOfCode/Sources/Day15/main.swift:150-161 | the "none shorter" bound over the first target and the rest joins to all targets |
| Combat.BestPathNone | AdventOfCode/Sources/Day15/main.swift:150-161 | the double loop has no best path iff no source reaches any target |
| Combat.BestPathFound | AdventOfCode/Sources/Day15/main.swift:150-161 | the double loop's best path is one the search returns |
| Combat.BestPathShortest | AdventOfCode/Sources/Day15/main.swift:150-161 | no path found between a source and a target is shorter than the chosen one |
| Combat.BestPathFirst | AdventOfCode/Sources/Day15/main.swift:150-161 | the double loop keeps its best, or replaces it by a strictly shorter path found at some (target, source) position, every earlier position giving none or a strictly longer one |
| Combat.BestPathStart | AdventOfCode/Sources/Day15/main.swift:150-166 | the chosen path is the search result from some source to some target and starts at that source |
| Combat.MoveChoice | AdventOfCode/Sources/Day15/main.swift:107-171 | a chosen move is made only by a unit and is an Empty neighbour of it; which neighbour is stated by `MoveChoiceExact` |
| Combat.EmptyAmongAscends | AdventOfCode/Sources/Day15/main.swift:142-148 | the filter keeps the order of the points, so a list in strict reading order stays in it |
| Combat.SourcesAscend | AdventOfCode/Sources/Day15/main.swift:142-148 | the Empty neighbours come up, left, right, down: strictly ascending in reading order |
| Combat.FirstAtBefore | AdventOfCode/Sources/Day15/main.swift:134-161 | with the targets sorted and the sources ascending, a target earlier in reading order, or the same target from an earlier source, is scanned earlier and so needs a strictly longer path |
| Combat.ChosenFirst | AdventOfCode/Sources/Day15/main.swift:134-161 | the chosen path starts at a source and goes to a target such that every pair with an earlier target, or the same target and an earlier source, needs a strictly longer path |
| Combat.StepFromPair | AdventOfCode/Sources/Day15/main.swift:142-166 | a shortest path that comes first in that order gives the first shortest step |
| Combat.FirstShortestUnique | AdventOfCode/Sources/Day15/main.swift:150-166 | at most one (neighbour, destination) pair is the first shortest step, so the tie-break decides the move |
| Combat.MoveChoiceExact | AdventOfCode/Sources/Day15/main.swift:107-171 | `nextMovement` returns neighbour `s` exactly when the point holds a unit with no enemy adjacent and `s` begins a shortest path to a destination, ties going to the destination first in reading order and then to the neighbour first in up, left, right, down order |
| Combat.ChosenPath | AdventOfCode/Sources/Day15/main.swift:134-166 | the chosen path starts at a source, is the search's path to some target, and is no longer than any path found between a source and a target |
| Combat.NoPathChosen | AdventOfCode/Sources/Day15/main.swift:150-170 | no path is chosen iff no target is reachable from any source |
| Combat.MoveChoiceSome | AdventOfCode/Sources/Day15/main.swift:107-275 | a unit moves only when no enemy is adjacent, and then onto the first shortest step: no found path is shorter, and an equal one needs a later destination, or the same destination from a later neighbour |
| Combat.MoveChoiceNone | AdventOfCode/Sources/Day15/main.swift:107-275 | the unit stays iff the cell is not a unit, an enemy is adjacent, or no destination is reachable from any Empty neighbour |
| Combat.Weakest | AdventOfCode/Sources/Day15/main.swift:345-356 | the chosen victim is an adjacent enemy |
| Combat.WeakestSpec | AdventOfCode/Sources/Day15/main.swift:340-371 | no victim iff no neighbour is an enemy; otherwise it is the first neighbour (up, left, right, down) of strictly lowest hp |
| Combat.Attacked | AdventOfCode/Sources/Day15/main.swift:329-404 | an attack keeps the grid's shape |
| Combat.AttackedSpec | AdventOfCode/Sources/Day15/main.swift:329-404 | the grid is unchanged iff there is no adjacent enemy; otherwise exactly one neighbouring enemy cell changes, to the same unit with 3 hp less, or Empty when none is left |
| Combat.PutHp | AdventOfCode/Sources/Day15/main.swift:309-327 | changing one cell changes a faction's hp total by that cell's difference |
| Combat.HpZeroIffGone | AdventOfCode/Sources/Day15/main.swift:309-327 | with every unit alive, a faction's total is never negative and is 0 iff the faction has no unit |
| Combat.CellUnitSpec | AdventOfCode/Sources/Day15/main.swift:438-447 | a cell contributes one entry, naming its unit and point, exactly when it holds a unit |
| Combat.RowUnitsNamed | AdventOfCode/Sources/Day15/main.swift:436-450 | every entry of a row scan names the unit at its point in that row |
| Combat.RowUnitsAscend | AdventOfCode/Sources/Day15/main.swift:436-450 | a row scan lists its units left to right |
| Combat.RowUnitsComplete | AdventOfCode/Sources/Day15/main.swift:436-450 | a row scan lists every unit of the scanned prefix |
| Combat.GridUnitsNamed | AdventOfCode/Sources/Day15/main.swift:434-453 | every entry of the grid scan names the unit at its point |
| Combat.GridUnitsAscend | AdventOfCode/Sources/Day15/main.swift:434-453 | the grid scan is strictly ascending in reading order |
| Combat.GridUnitsComplete | AdventOfCode/Sources/Day15/main.swift:434-453 | the grid scan lists every unit of the scanned rows |
| Combat.TurnOrderSpec | AdventOfCode/Sources/Day15/main.swift:434-453 | `roundOrder` lists every unit exactly once, with its id, in strictly increasing reading order |
| Combat.Moved | AdventOfCode/Sources/Day15/main.swift:295-301 | a step keeps the grid's shape |
| Combat.Turn | AdventOfCode/Sources/Day15/main.swift:293-303 | a turn keeps the grid's shape |
| Combat.TurnWalls | AdventOfCode/Sources/Day15/main.swift:293-303 | a turn neither removes nor adds walls, so a walled cave stays walled |
| Combat.TurnAlive | AdventOfCode/Sources/Day15/main.swift:293-303 | after a turn every unit still on the grid has hp left |
| Combat.MovedHp | AdventOfCode/Sources/Day15/main.swift:295-301 | a step moves the unit unchanged: no faction's total changes |
| Combat.AttackedHp | AdventOfCode/Sources/Day15/main.swift:340-404 | a blow never raises a faction's total |
| Combat.TurnHp | AdventOfCode/Sources/Day15/main.swift:293-303 | no faction's hp total rises during a turn |
| Combat.Positions | AdventOfCode/Sources/Day15/main.swift:281 | the turn positions are the order's points, in order |
| Combat.PlayTurns | AdventOfCode/Sources/Day15/main.swift:281-304 | a run of turns keeps the grid's shape |
| Combat.PlayTurnsHead | AdventOfCode/Sources/Day15/main.swift:281-303 | before each turn the battle ends, unchanged, when either faction's total is 0; otherwise the turn is played |
| Combat.PlayTurnsWalls | AdventOfCode/Sources/Day15/main.swift:281-304 | a run of turns keeps every wall and adds none |
| Combat.PlayTurnsKeeps | AdventOfCode/Sources/Day15/main.swift:281-304 | over a run of turns walls stay, units stay alive, and no faction gains hp |
| Combat.PlayTurnsOver | AdventOfCode/Sources/Day15/main.swift:282-290 | the battle is declared over only when one faction has no unit left |
| Combat.RoundOverAtOnce | AdventOfCode/Sources/Day15/main.swift:279-290 | a round that starts with a faction gone ends at once with nothing changed |
| Combat.RoundKeeps | AdventOfCode/Sources/Day15/main.swift:277-307 | a round keeps walls and living units and never raises a faction's total; it ends the battle only when a faction is gone |
| Combat.UnitGlyphs | AdventOfCode/Sources/Day15/main.swift:91-96 | the number of unit glyphs, by which `nextID` grows, is at most the line's length |
| Combat.ParseRow | AdventOfCode/Sources/Day15/main.swift:82-105 | a parsed row has one cell per glyph |
| Combat.ParseRowSome | AdventOfCode/Sources/Day15/main.swift:85-100 | a row parses iff every glyph is `#`, `.`, `E` or `G`; any other glyph is fatal |
| Combat.ParseRowCell | AdventOfCode/Sources/Day15/main.swift:85-100 | cell `i` is glyph `i` read with id `nextID` plus the number of units before it, hp 200 |
| Combat.Render | AdventOfCode/Sources/Day15/main.swift:413-426 | printing gives one glyph per cell |
| Combat.ParseThenRender | AdventOfCode/Sources/Day15/main.swift:86-96 | printing a parsed row gives back the line: cell kinds and factions survive the round trip |
| Combat.RenderThenParse | AdventOfCode/Sources/Day15/main.swift:82-105 | every printed row parses again, to a row of the same length whose cells have the same glyphs |
| Combat.ParsedIds | AdventOfCode/Sources/Day15/main.swift:91-96 | units of a parsed row are numbered `nextID`, `nextID + 1`, ... from left to right, each with 200 hit points |
| CaveBattle.Reversed | AdventOfCode/Sources/Day15/main.swift:482 | `reverse()`: entry `i` of the result is entry `n-1-i` of the input |
| CaveBattle.Cave.constructor | AdventOfCode/Sources/Day15/main.swift:60-80 | a new cave has no rows, no rounds, ids from 1, and is not over |
| CaveBattle.Cave.AddSpaces | AdventOfCode/Sources/Day15/main.swift:82-105 | appends exactly one parsed row and moves `nextID` on by the number of units; an unknown glyph (fatal) adds nothing |
| CaveBattle.Cave.RoundOrder | AdventOfCode/Sources/Day15/main.swift:434-453 | the scan returns `TurnOrder` of the grid: every unit once, in reading order |
| CaveBattle.Cave.RemainingHitPoints | AdventOfCode/Sources/Day15/main.swift:309-327 | each faction's hp summed over the grid |
| CaveBattle.Cave.NextUnitMovement | AdventOfCode/Sources/Day15/main.swift:173-275 | nothing when an enemy is adjacent, else the Empty cells beside every enemy, in scan order |
| CaveBattle.Cave.ScanRow | AdventOfCode/Sources/Day15/main.swift:194-220 | the inner scan over one row yields that row's targets |
| CaveBattle.Cave.ShortestPath | AdventOfCode/Sources/Day15/main.swift:455-517 | the imperative search (priority queue, `cameFrom`, `costSoFar`) returns exactly `Search`, proved a walk iff one exists |
| CaveBattle.Cave.Relaxing | AdventOfCode/Sources/Day15/main.swift:502-512 | the neighbour loop leaves the frontier and maps in the state `Relax` describes |
| CaveBattle.Cave.Visit | AdventOfCode/Sources/Day15/main.swift:503-511 | a point already costed changes nothing; otherwise it is costed, linked and pushed at 1 plus its Manhattan distance to `to` |
| CaveBattle.Cave.Rebuild | AdventOfCode/Sources/Day15/main.swift:473-484 | the reconstruction loop returns the `cameFrom` chain from `from` to `to` |
| CaveBattle.Cave.NextMovement | AdventOfCode/Sources/Day15/main.swift:107-171 | the chosen step is `MoveChoice`, whose properties `MoveChoiceExact`, `MoveChoiceSome` and `MoveChoiceNone` state |
| CaveBattle.Cave.Attack | AdventOfCode/Sources/Day15/main.swift:329-404 | the grid becomes `Attacked(old grid)`; no other field changes |
| CaveBattle.Cave.TakeTurn | AdventOfCode/Sources/Day15/main.swift:293-303 | one unit's turn: the grid becomes `Turn(old grid, point)` |
| CaveBattle.Cave.MoveUnit | AdventOfCode/Sources/Day15/main.swift:295-301 | with no move the grid is unchanged; otherwise the old cell empties and the identical unit stands on the chosen cell, which is returned |
| CaveBattle.Cave.NextRound | AdventOfCode/Sources/Day15/main.swift:277-307 | the grid becomes `Round(old grid)` and stays walled; a battle found over sets `isOver` and leaves `rounds`, otherwise `rounds` grows by exactly 1 |
| CaveBattle.Cave.PlayOrder | AdventOfCode/Sources/Day15/main.swift:281-304 | the turn loop plays `PlayTurns` over the positions of the order |
| CaveBattle.Battle | AdventOfCode/Sources/Day15/main.swift:530-533 | when the battle is declared over, one faction has no unit left; the cave stays walled with all units alive |
| Frequencies.SumPrefixStep | AdventOfCode/Sources/01/main.swift:74-79 | the running sum after `k+1` shifts is the sum after `k` plus shift `k` |
| Frequencies.ShiftIterator.constructor | AdventOfCode/Sources/01/main.swift:36-39 | a new iterator starts at `head == 0` (same in 01/frequency.swift:23-26); infinite mode needs a non-empty list |
| Frequencies.ShiftIterator.Next | AdventOfCode/Sources/01/main.swift:41-62 | infinite mode yields `shifts[head]` and wraps `head` to 0 at the end, keeping it in range; finite mode yields the shifts in order and then nil forever without moving (same in 01/frequency.swift:28-49) |
| Frequencies.FinalFrequency | AdventOfCode/Sources/01/main.swift:71-79 | part 1's frequency after the finite iterator runs out is the sum of the shifts (same in 01/frequency.swift:62-70) |
| Frequencies.Cursor | AdventOfCode/Sources/01/main.swift:42-51 | the infinite iterator's `head` after `k` calls stays in range |
| Frequencies.CursorFirstPass | AdventOfCode/Sources/01/main.swift:42-51 | the first pass hands out the shifts in order |
| Frequencies.CursorCycles | AdventOfCode/Sources/01/main.swift:47-49 | the infinite iterator is periodic with period `|shifts|` |
| Frequencies.FreqFullPass | AdventOfCode/Sources/01/main.swift:88-90 | each full pass of part 2 moves the frequency by the part 1 answer |
| Frequencies.FreqFirstPass | AdventOfCode/Sources/01/main.swift:88-90 | during the first pass the frequency is the prefix sum |
| Frequencies.RepeatFound | AdventOfCode/Sources/01/main.swift:85-100 | a reported repeat is the frequency at some step `j` already recorded at an earlier step, and no earlier step repeated |
| Frequencies.RepeatNotFound | AdventOfCode/Sources/01/main.swift:85-100 | no repeat within the fuel means no searched step repeated |
| Frequencies.FirstRepeat | AdventOfCode/Sources/01/main.swift:85-100 | the part 2 loop returns `RepeatSearch` from an empty set: the starting 0 is not recorded (same in 01/frequency.swift:76-92) |
| Frequencies.UnseededStart | AdventOfCode/Sources/01/main.swift:85-86 | because 0 is not pre-inserted, shifts +1, -1 repeat 1, whereas a seeded set would give 0 |
| Frequencies.SplitLines | 01/frequency.swift:58 | every piece is non-empty and holds no newline |
| Frequencies.SplitLinesKeepsText | 01/frequency.swift:58 | the pieces, joined, are exactly the input without its newlines, in order |
| BoxIds.BoxOf | AdventOfCode/Sources/02/main.swift:13-50 | a box keeps its id, tallies exactly its letters with their occurrence counts, and flags a 2 or a 3 iff some tally is 2 or 3 |
| BoxIds.NewBox | AdventOfCode/Sources/02/main.swift:13-50 | `Box.init` builds the box whose tallies and flags `BoxOf` gives |
| BoxIds.Tally | AdventOfCode/Sources/02/main.swift:20-28 | the tally loop produces the letter counts of the id |
| BoxIds.TalliesSnoc | AdventOfCode/Sources/02/main.swift:22-28 | one more letter raises its own count by one, or creates it at 1 |
| BoxIds.TalliesCount | AdventOfCode/Sources/02/main.swift:20-30 | the tallies hold exactly the id's letters, each with its number of occurrences (never 0) |
| BoxIds.GroupFlags | AdventOfCode/Sources/02/main.swift:33-49 | `twoGroups` iff some letter occurs exactly twice, `threeGroups` iff some letter occurs exactly three times, despite the early break |
| BoxIds.Common | AdventOfCode/Sources/02/main.swift:52-62 | there are at most as many common letters as either id has |
| BoxIds.CommonLetters | AdventOfCode/Sources/02/main.swift:52-62 | the `zip` loop returns the letters equal at the same index, in order |
| BoxIds.CommonSymmetric | AdventOfCode/Sources/02/main.swift:52-62 | the common letters do not depend on which box asks |
| BoxIds.CommonSelf | AdventOfCode/Sources/02/main.swift:52-62 | an id shares all its letters with itself |
| BoxIds.CommonDifferences | AdventOfCode/Sources/02/main.swift:104-116 | for equal lengths, common letters plus differing positions make the length: one lost letter is one difference |
| BoxIds.Checksum | AdventOfCode/Sources/02/main.swift:88-101 | boxes are equal by id, so the checksum is the number of distinct ids with a double times those with a triple |
| BoxIds.FindPair | AdventOfCode/Sources/02/main.swift:104-128 | the search returns the common letters of the first ordered pair of distinct ids sharing `len(boxes[0]) - 1` letters; none means no pair matches |
| FabricClaims.CoverageOfMember | AdventOfCode/Sources/Day03/main.swift:86-92 | every cell of a claimed square is counted at least once |
| FabricClaims.CoverageBounds | AdventOfCode/Sources/Day03/main.swift:86-92 | a cell's count is at most the number of squares, and 0 when no square's `xRange` × `yRange` holds it |
| FabricClaims.AddColumn | AdventOfCode/Sources/Day03/main.swift:88-90 | the innermost loop adds one to column `x` in rows `[y, y+height)` and nowhere else |
| FabricClaims.AddSquare | AdventOfCode/Sources/Day03/main.swift:87-91 | the two inner loops add one exactly to the cells the square covers |
| FabricClaims.Fill | AdventOfCode/Sources/Day03/main.swift:83-92 | the fill gives every cell the number of squares covering it |
| FabricClaims.Used | AdventOfCode/Sources/Day03/main.swift:121-130 | the loops count the cells above 1 |
| FabricClaims.RowUsedMeaning | AdventOfCode/Sources/Day03/main.swift:123-127 | a row's count is at most its length and is 0 iff no cell of it exceeds 1 |
| FabricClaims.GridUsedMeaning | AdventOfCode/Sources/Day03/main.swift:118-131 | `determineUsed` is 0 iff no cell is claimed twice |
| FabricClaims.GridUsedBound | AdventOfCode/Sources/Day03/main.swift:118-131 | at most width × height cells are counted |
| FabricClaims.CleanCheckStops | AdventOfCode/Sources/Day03/main.swift:101-115 | once one square's closure hits the fatal 0, the whole filter stops |
| FabricClaims.CheckSquare | AdventOfCode/Sources/Day03/main.swift:101-115 | the closure's nested loops with early exits compute `SquareCheck`: false at a count above 1, fatal at 0, true when every cell is 1 |
| FabricClaims.Clean | AdventOfCode/Sources/Day03/main.swift:101-115 | the filter keeps, in insertion order, the squares whose check is true, or stops the program |
| FabricClaims.ColumnCheckMeaning | AdventOfCode/Sources/Day03/main.swift:103-110 | over claimed cells a column check never stops and is true iff every cell is counted exactly once |
| FabricClaims.SquareCheckMeaning | AdventOfCode/Sources/Day03/main.swift:102-114 | over claimed cells a square's check never stops and is true iff every covered cell is counted exactly once |
| FabricClaims.CleanCheckMeaning | AdventOfCode/Sources/Day03/main.swift:98-116 | on the counts of its own squares, `determineClean` never stops and returns, in insertion order, exactly the squares overlapping no other |
| FabricClaims.Fabric.constructor | AdventOfCode/Sources/Day03/main.swift:56-61 | a new fabric has no squares, size 0 × 0 and no cache |
| FabricClaims.Fabric.Add | AdventOfCode/Sources/Day03/main.swift:63-76 | appends the square and raises width and height to at least `x+w+1` and `y+h+1`; the cache is kept as it was |
| FabricClaims.Fabric.FillInFabric | AdventOfCode/Sources/Day03/main.swift:78-96 | a cached grid is returned unchanged even if squares were added since; otherwise the counts of the current squares are computed and cached |
| FabricClaims.Fabric.DetermineUsed | AdventOfCode/Sources/Day03/main.swift:118-131 | the number of cells above 1 in the filled grid; with no cache, the current squares' |
| FabricClaims.Fabric.DetermineClean | AdventOfCode/Sources/Day03/main.swift:98-116 | the filter against the filled grid; when the grid is current it returns exactly the squares that overlap no other |
| Polymer.From | AdventOfCode/Sources/05/main.swift:19-31 | the type is the lower-cased character, and the unit is negative iff the character equals its lower case |
| Polymer.DescriptionRoundTrip | AdventOfCode/Sources/05/main.swift:46-53 | for letters, `from(description(u)) == u` and `description(from(c)) == c` |
| Polymer.Reacts | AdventOfCode/Sources/05/main.swift:33-42 | `>-<` holds iff the types are equal and the polarities differ |
| Polymer.ReactsMeaning | AdventOfCode/Sources/05/main.swift:33-42 | `>-<` is symmetric and never true of a unit with itself |
| Polymer.Parse | AdventOfCode/Sources/05/main.swift:59-61 | one unit per character, each `Unit.from` of it |
| Polymer.ParseRoundTrip | AdventOfCode/Sources/05/main.swift:59-61 | a chain read from letters describes back to the same text |
| Polymer.React | AdventOfCode/Sources/05/main.swift:63-90 | the loop with its moving head computes `Scan` from head 0 |
| Polymer.ScanSettles | AdventOfCode/Sources/05/main.swift:67-87 | from a state where no reacting pair lies before the head, the loop ends with no adjacent reacting pair and, with two or more units left, none of the skipped type |
| Polymer.Scan | AdventOfCode/Sources/05/main.swift:67-87 | the loop from any head position only removes units, so the chain never grows |
| Polymer.ScanShrinks | AdventOfCode/Sources/05/main.swift:67-87 | the loop only removes units, so the result is a sub-multiset of the input |
| Polymer.ScanRemovesPairs | AdventOfCode/Sources/05/main.swift:75-83 | with nothing skipped the loop removes whole pairs: input length = output length + 2 × pairs |
| Polymer.ReactSettles | AdventOfCode/Sources/05/main.swift:63-90 | `react` leaves no adjacent reacting pair and removes every skipped unit unless one unit is left |
| Polymer.ReactShrinks | AdventOfCode/Sources/05/main.swift:63-90 | `react` keeps only units it was given, never lengthens the chain, and without a skipped type keeps the length's parity |
| Polymer.LoneSkippedSurvives | AdventOfCode/Sources/05/main.swift:67 | a single unit of the skipped type survives because the loop needs two units |
| Polymer.BestLetter | AdventOfCode/Sources/05/main.swift:108-122 | part 2 returns a letter whose reacted length is minimal over the alphabet and strictly below every earlier letter's (first minimum wins) |
| LicenseTree.DecodeNode | AdventOfCode/Sources/08/main.swift:103-126 | a parsed node consumes at least its two header numbers and stays within the input |
| LicenseTree.DecodeChildren | AdventOfCode/Sources/08/main.swift:113-118 | the child loop never moves the head backwards or past the end |
| LicenseTree.DecodeNodeSpans | AdventOfCode/Sources/08/main.swift:103-126 | a node read from non-negative numbers has `numberOfChildren` children and `numberOfMetadataEntries` entries, and `head` advances by exactly its encoded length |
| LicenseTree.DecodeChildrenSpan | AdventOfCode/Sources/08/main.swift:113-118 | the child loop reads exactly `count` children spanning their encodings |
| LicenseTree.IdsSize | AdventOfCode/Sources/08/main.swift:104-105 | one id per node of the tree |
| LicenseTree.EncodedParts | AdventOfCode/Sources/08/main.swift:107-123 | an encoded node is its header, its children's encodings, then its metadata |
| LicenseTree.DecodeEncoded | AdventOfCode/Sources/08/main.swift:103-126 | round trip: parsing the serialisation of a preorder-numbered tree gives the tree back, ends right after it and leaves the next id after it |
| LicenseTree.DecodeEncodedAll | AdventOfCode/Sources/08/main.swift:113-118 | the same round trip for a list of children |
| LicenseTree.DecodeNodeIds | AdventOfCode/Sources/08/main.swift:104-105 | ids are handed out in preorder from `nextID`, one per node, and the counter ends just after them |
| LicenseTree.DecodeChildrenIds | AdventOfCode/Sources/08/main.swift:113-118 | children are numbered consecutively in preorder |
| LicenseTree.Parser.constructor | AdventOfCode/Sources/08/main.swift:88-96 | a new parser starts at head 0 with id 0 |
| LicenseTree.Parser.Parse | AdventOfCode/Sources/08/main.swift:98-101 | `parse` resets the head but not `nextID`, then reads one node as `DecodeNode` does |
| LicenseTree.Parser.ParseNode | AdventOfCode/Sources/08/main.swift:103-126 | `parseNode` returns `DecodeNode`'s node and leaves head and `nextID` where it says, or fails where the numbers run out |
| LicenseTree.Parser.ReadMetadata | AdventOfCode/Sources/08/main.swift:120-123 | the metadata loop reads the next `entries` numbers (none for a negative count) and moves the head past them |
| LicenseTree.Parser.ParseChildren | AdventOfCode/Sources/08/main.swift:113-118 | the child loop returns `DecodeChildren`'s nodes |
| LicenseTree.SumAppend | AdventOfCode/Sources/08/main.swift:25-26 | the metadata sum of two lists is the sum of their sums |
| LicenseTree.TotalMetadata | AdventOfCode/Sources/08/main.swift:24-29 | `totalMetadata` is the sum of every metadata entry of the tree, at every depth |
| LicenseTree.ChildrenTotals | AdventOfCode/Sources/08/main.swift:26 | the children's totals add up to the sum of all the metadata below them |
| LicenseTree.Value | AdventOfCode/Sources/08/main.swift:31-48 | a leaf's value is its metadata sum; an inner node with a negative metadata entry has none, because `children[idx - 1]` traps |
| LicenseTree.PickedValues | AdventOfCode/Sources/08/main.swift:36-47 | the `map` over the entries traps as soon as one entry is negative |
| LicenseTree.PickedValuesDefined | AdventOfCode/Sources/08/main.swift:36-47 | the entries give a value exactly when none is negative and every child one names has a value |
| LicenseTree.WeightedSnoc | AdventOfCode/Sources/08/main.swift:37-46 | one more entry adds its child's value once, or nothing when it names no child (0 or beyond the count) |
| LicenseTree.PickedByCounts | AdventOfCode/Sources/08/main.swift:31-48 | where an inner node's entries give a value, it is the sum over its children of (times the metadata names the child) × the child's value |
| Device.BitAnd | AdventOfCode/Sources/Day16/main.swift:31-37 | `&` on non-negative values is at most either operand |
| Device.BitOr | AdventOfCode/Sources/Day16/main.swift:39-45 | `\|` on non-negative values is at least either operand and at most their sum |
| Device.AndPlusOr | AdventOfCode/Sources/Day16/main.swift:31-45 | `x & y + x \| y == x + y`: each bit set in either operand counts once in `\|` and once more in `&` when set in both |
| Device.Apply | AdventOfCode/Sources/Day16/main.swift:15-77 | every opcode keeps the register count and writes only register `c` |
| Device.ComparisonStoresFlag | AdventOfCode/Sources/Day16/main.swift:55-77 | the `gt*`/`eq*` opcodes always store 0 or 1 |
| Device.SetIgnoresB | AdventOfCode/Sources/Day16/main.swift:47-53 | `seti` stores the literal `a` whatever `b` is; `setr` copies register `a` |
| Device.Compute.constructor | AdventOfCode/Sources/Day16/main.swift:11-13 | the device starts with the given registers |
| Device.Compute.Addr | AdventOfCode/Sources/Day16/main.swift:15-17 | register `c` becomes `r[a] + r[b]`, nothing else changes |
| Device.Compute.Addi | AdventOfCode/Sources/Day16/main.swift:19-21 | register `c` becomes `r[a] + b` |
| Device.Compute.Mulr | AdventOfCode/Sources/Day16/main.swift:23-25 | register `c` becomes `r[a] * r[b]` |
| Device.Compute.Muli | AdventOfCode/Sources/Day16/main.swift:27-29 | register `c` becomes `r[a] * b` |
| Device.Compute.Banr | AdventOfCode/Sources/Day16/main.swift:31-33 | register `c` becomes `r[a] & r[b]` |
| Device.Compute.Bani | AdventOfCode/Sources/Day16/main.swift:35-37 | register `c` becomes `r[a] & b` |
| Device.Compute.Borr | AdventOfCode/Sources/Day16/main.swift:39-41 | register `c` becomes `r[a] \| r[b]` |
| Device.Compute.Bori | AdventOfCode/Sources/Day16/main.swift:43-45 | register `c` becomes `r[a] \| b` |
| Device.Compute.Setr | AdventOfCode/Sources/Day16/main.swift:47-49 | register `c` becomes `r[a]` |
| Device.Compute.Seti | AdventOfCode/Sources/Day16/main.swift:51-53 | register `c` becomes the literal `a` |
| Device.Compute.Gtir | AdventOfCode/Sources/Day16/main.swift:55-57 | register `c` becomes 1 if `a > r[b]`, else 0 |
| Device.Compute.Gtri | AdventOfCode/Sources/Day16/main.swift:59-61 | register `c` becomes 1 if `r[a] > b`, else 0 |
| Device.Compute.Gtrr | AdventOfCode/Sources/Day16/main.swift:63-65 | register `c` becomes 1 if `r[a] > r[b]`, else 0 |
| Device.Compute.Eqir | AdventOfCode/Sources/Day16/main.swift:67-69 | register `c` becomes 1 if `a == r[b]`, else 0 |
| Device.Compute.Eqri | AdventOfCode/Sources/Day16/main.swift:71-73 | register `c` becomes 1 if `r[a] == b`, else 0 |
| Device.Compute.Eqrr | AdventOfCode/Sources/Day16/main.swift:75-77 | register `c` becomes 1 if `r[a] == r[b]`, else 0 |
| Device.Compute.Run | AdventOfCode/Sources/Day16/main.swift:164-290 | running an opcode by name gives `Apply` of it |
| Device.MatchingMeaning | AdventOfCode/Sources/Day16/main.swift:162-290 | an opcode is counted iff it is tried and reproduces registers-after exactly |
| Device.Matching | AdventOfCode/Sources/Day16/main.swift:162-290 | keeps no more opcodes than were tried |
| Device.MatchOnlyWritesC | AdventOfCode/Sources/Day16/main.swift:162-290 | a matching opcode implies registers-after equals registers-before outside register `c` |
| Device.Try | AdventOfCode/Sources/Day16/main.swift:165-170 | the opcode run on a fresh copy of registers-before reproduces registers-after exactly when the sample matches it |
| Device.CountMatches | AdventOfCode/Sources/Day16/main.swift:162-292 | each of the 16 opcodes runs on a fresh copy of registers-before; the count is the number that match, at most 16 |
| Device.CountThreeOrMore | AdventOfCode/Sources/Day16/main.swift:104-306 | part 1 counts the samples matched by at least 3 opcodes, at most the number of samples |
| Recipes.NewDigits | AdventOfCode/Sources/Day14/main.swift:52-60 | a step appends one or two digits |
| Recipes.DecimalRoundTrip | AdventOfCode/Sources/Day14/main.swift:18-26 | reading ten digits as a number and writing it back with ten digits gives the digits |
| Recipes.NewDigitsSpellSum | AdventOfCode/Sources/Day14/main.swift:52-60 | the appended digits spell the sum of the two scores with no leading zero; two digits iff the sum is at least 10 |
| Recipes.Next | AdventOfCode/Sources/Day14/main.swift:51-70 | a step keeps both elves on a score |
| Recipes.NextAppends | AdventOfCode/Sources/Day14/main.swift:51-63 | a step keeps every existing score and appends exactly the digits of the sum (1 or 2, each 0..9) |
| Recipes.Turn | AdventOfCode/Sources/Day14/main.swift:51-70 | on a board with both elves on a score, a step keeps them on a score and strictly extends the scores |
| Recipes.RepeatShift | AdventOfCode/Sources/Day14/main.swift:72-76 | one step then `k` more is `k + 1` steps |
| Recipes.RepeatTurnConsistent | AdventOfCode/Sources/Day14/main.swift:62-63 | repeated steps keep the elves on the board |
| Recipes.Iterate | AdventOfCode/Sources/Day14/main.swift:72-76 | the board after `k` steps keeps both elves on a score |
| Recipes.IterateLast | AdventOfCode/Sources/Day14/main.swift:72-76 | `k + 1` steps is one step past `k` steps |
| Recipes.IterateShift | AdventOfCode/Sources/Day14/main.swift:72-76 | one step then `k` steps is `k + 1` steps |
| Recipes.RepeatAppends | AdventOfCode/Sources/Day14/main.swift:51-70 | repeating an appending step only appends, at least one score per step |
| Recipes.TurnAppends | AdventOfCode/Sources/Day14/main.swift:51-70 | a step appends |
| Recipes.IterateGrows | AdventOfCode/Sources/Day14/main.swift:72-76 | the scores are a prefix of the scores `k` steps later, which has at least `k` more |
| Recipes.FinalScore | AdventOfCode/Sources/Day14/main.swift:18-26 | 0 while fewer than `after + 10` scores exist; otherwise a number below 10^10 whose ten digits are exactly the ten scores from `after` on |
| Recipes.AtPrefix | AdventOfCode/Sources/Day14/main.swift:81-86 | whether a window holds the pattern does not depend on scores after it |
| Recipes.WindowHit | AdventOfCode/Sources/Day14/main.swift:81-87 | a hit lies in the scanned range |
| Recipes.WindowHitFirst | AdventOfCode/Sources/Day14/main.swift:81-87 | the scan returns the first window holding the pattern; none means no window in the range holds it |
| Recipes.SearchStep | AdventOfCode/Sources/Day14/main.swift:79-91 | a failed check is followed by a step |
| Recipes.Check | AdventOfCode/Sources/Day14/main.swift:80-88 | once there are `|pattern| + 3` scores, a hit is a start among the last three windows that holds the pattern; a miss means none of those three windows holds it; fewer scores are never checked |
| Recipes.Search | AdventOfCode/Sources/Day14/main.swift:78-92 | `recipes` never answers below `count - |pattern| - 3` of the board it starts on |
| Recipes.NoneBeforeNext | AdventOfCode/Sources/Day14/main.swift:80-90 | with the corrected check, consecutive boards' checked ranges leave no gap |
| Recipes.CheckFixedFirst | AdventOfCode/Sources/Day14/main.swift:80-88 | a successful corrected check finds the first occurrence |
| Recipes.SearchFixedBoard | AdventOfCode/Sources/Day14/main.swift:78-92 | the corrected search stops on a board with both elves on a score |
| Recipes.SearchFixedFirst | AdventOfCode/Sources/Day14/main.swift:78-92 | the corrected `recipes` answers the first start of the pattern in the scores |
| Recipes.FirstTwoSteps | AdventOfCode/Sources/Day14/main.swift:51-63 | from [3,7] the scores become [3,7,1,0] with elves on 0 and 1, then [3,7,1,0,1,0] with elves on 4 and 3 |
| Recipes.SearchSkip | AdventOfCode/Sources/Day14/main.swift:79-91 | after `n` failed checks the search is the search from `n` steps on |
| Recipes.SearchSkipsZero | AdventOfCode/Sources/Day14/main.swift:80-81 | when the count jumps from `|pattern|+2` to `|pattern|+4`, start 0 is never checked |
| Recipes.SearchSkipsZeroLater | AdventOfCode/Sources/Day14/main.swift:80-81 | the same gap one step later |
| Recipes.FirstCounts | AdventOfCode/Sources/Day14/main.swift:11-16 | the board has 2, then 4, then 6 scores |
| Recipes.SearchSkipsStart | AdventOfCode/Sources/Day14/main.swift:78-92 | as written, `recipes([3,7])` never answers 0 although the pattern lies at 0 |
| Recipes.SearchFixedFindsStart | AdventOfCode/Sources/Day14/main.swift:78-92 | the corrected search answers 0 for [3,7] |
| Recipes.ScoreBoard.constructor | AdventOfCode/Sources/Day14/main.swift:11-16 | scores [3,7], elves on 0 and 1, no steps |
| Recipes.ScoreBoard.Reset | AdventOfCode/Sources/Day14/main.swift:44-49 | back to scores [3,7], elves on 0 and 1, no steps |
| Recipes.ScoreBoard.Step | AdventOfCode/Sources/Day14/main.swift:51-70 | the board becomes `Next(old board)` and the step counter grows by one |
| Recipes.ScoreBoard.StepUntil | AdventOfCode/Sources/Day14/main.swift:72-76 | steps until there are at least `until + 10` scores and not once more |
| Recipes.ScoreBoard.CheckWindows | AdventOfCode/Sources/Day14/main.swift:80-88 | the window scan returns `Check` on the current scores, and a hit holds the pattern |
| Recipes.ScoreBoard.FindPattern | AdventOfCode/Sources/Day14/main.swift:78-92 | `recipes` returns `Search` within `fuel` steps; a hit holds the pattern in the scores |
| Pots.Layout | AdventOfCode/Sources/Day12/main.swift:49-51 | `generatePots`: one pot per character, holding a plant exactly where the layout has `#` |
| Pots.Render | AdventOfCode/Sources/Day12/main.swift:99 | a row drawn as `#`/`.`, one character per pot |
| Pots.LayoutRender | AdventOfCode/Sources/Day12/main.swift:49-51 | reading back a drawn row gives the same pots |
| Pots.RenderInjective | AdventOfCode/Sources/Day12/main.swift:99-106 | two rows with the same drawing are the same, so a pattern names one window |
| Pots.Count | AdventOfCode/Sources/Day12/main.swift:13-25 | the number of plants is at most the number of pots |
| Pots.ValueShift | AdventOfCode/Sources/Day12/main.swift:13-25 | renumbering by `d` moves `plantValue` by `d` per plant |
| Pots.ValuePadFront | AdventOfCode/Sources/Day12/main.swift:59-67 | an empty pot in front with `headID - 1` keeps `plantValue` |
| Pots.ValuePadBack | AdventOfCode/Sources/Day12/main.swift:71-79 | an empty pot at the end keeps `plantValue` |
| Pots.PositionsPadFront | AdventOfCode/Sources/Day12/main.swift:59-67 | front padding keeps the set of plant numbers `offset + headID` |
| Pots.PositionsPadBack | AdventOfCode/Sources/Day12/main.swift:71-79 | back padding keeps the set of plant numbers |
| Pots.PadFront | AdventOfCode/Sources/Day12/main.swift:59-67 | the front padding keeps a plant |
| Pots.PadBack | AdventOfCode/Sources/Day12/main.swift:69-79 | the back padding keeps a plant |
| Pots.Compress | AdventOfCode/Sources/Day12/main.swift:82-85 | the compression loop keeps a plant |
| Pots.SamePadFront | AdventOfCode/Sources/Day12/main.swift:60-61 | one front pot changes neither the plant numbers nor the value |
| Pots.SamePadBack | AdventOfCode/Sources/Day12/main.swift:72 | one back pot changes neither the plant numbers nor the value |
| Pots.PadFrontKeeps | AdventOfCode/Sources/Day12/main.swift:59-67 | after the front padding `pots[0]` and `pots[1]` are empty, with plant numbers and value kept |
| Pots.PadBackKeeps | AdventOfCode/Sources/Day12/main.swift:69-79 | after the back padding the last two pots are empty, the old pots are a prefix, and plant numbers and value are kept |
| Pots.CompressFrames | AdventOfCode/Sources/Day12/main.swift:82-85 | compression stops with exactly two empty pots before the first plant and keeps the empty pots at the end |
| Pots.CompressSame | AdventOfCode/Sources/Day12/main.swift:82-85 | compression keeps the plant numbers and `plantValue` |
| Pots.FrameKeeps | AdventOfCode/Sources/Day12/main.swift:59-85 | padding and compression keep the plant numbers and value and leave two empty pots at each end (needs at least one plant) |
| Pots.NextPots | AdventOfCode/Sources/Day12/main.swift:88-109 | the rule step keeps the pot count |
| Pots.PotPadFront | AdventOfCode/Sources/Day12/main.swift:94-97 | pot `j + 1` of the padded stretch is pot `j`; out-of-range neighbours read as empty |
| Pots.NextPadFront | AdventOfCode/Sources/Day12/main.swift:88-107 | an empty pot in front does not change the next state of the pots already there |
| Pots.NextPadBack | AdventOfCode/Sources/Day12/main.swift:88-107 | an empty pot at the end does not change the next state of the pots already there |
| Pots.Hall.constructor | AdventOfCode/Sources/Day12/main.swift:38-47 | generation 0, `headID` 0, no notes, pots from the layout |
| Pots.Hall.AddNote | AdventOfCode/Sources/Day12/main.swift:53-55 | the pattern maps to `hasPlant`; nothing else changes |
| Pots.Hall.Next | AdventOfCode/Sources/Day12/main.swift:57-111 | pad, compress, then every pot takes `notes[5-pot pattern]` (missing pattern: no plant); generation grows by exactly 1, notes kept |
| Pots.Hall.PadFrontInPlace | AdventOfCode/Sources/Day12/main.swift:59-67 | the in-place front padding is `PadFront` |
| Pots.Hall.PadBackInPlace | AdventOfCode/Sources/Day12/main.swift:69-79 | the in-place back padding is `PadBack` |
| Pots.Hall.CompressInPlace | AdventOfCode/Sources/Day12/main.swift:82-85 | the in-place compression loop is `Compress` |
| Pots.Hall.Reset | AdventOfCode/Sources/Day12/main.swift:113-118 | back to the initial layout with `headID` and generation 0; the notes stay |
| PowerGrid.Quot | AdventOfCode/Sources/Day11/main.swift:23 | Swift's `/` truncates toward zero: Euclidean for non-negative dividends, otherwise rounded toward zero |
| PowerGrid.Rem | AdventOfCode/Sources/Day11/main.swift:23 | Swift's `%` has the dividend's sign and magnitude below the divisor |
| PowerGrid.Power | AdventOfCode/Sources/Day11/main.swift:15-27 | the power level is at most 4, at least -14, and at least -5 for a non-negative serial |
| PowerGrid.PowerExamples | AdventOfCode/Sources/Day11/main.swift:130-145 | serial 8 at (3,5) gives 4, 57 at (122,79) gives -5, 39 at (217,196) gives 0, 71 at (101,153) gives 4 |
| PowerGrid.ColumnBounds | AdventOfCode/Sources/Day11/main.swift:38-42 | a column of `n` cells totals between -5n and 4n |
| PowerGrid.BlockBounds | AdventOfCode/Sources/Day11/main.swift:38-42 | a block of `w × n` cells totals between -5wn and 4wn |
| PowerGrid.SquareAboveIntMin | AdventOfCode/Sources/Day11/main.swift:70-76 | no square totals `Int.min`, so the first square scanned always becomes the best |
| PowerGrid.WrittenScanInGrid | AdventOfCode/Sources/Day11/main.swift:72-74 | corners up to 298 keep the square in the grid iff the side is at most 3 |
| PowerGrid.FixedScanInGrid | AdventOfCode/Sources/Day11/main.swift:72-74 | corners up to `301 - size` keep every side 1..300 in the grid |
| PowerGrid.AtMostRaise | AdventOfCode/Sources/Day11/main.swift:76 | a larger bound is still a bound |
| PowerGrid.SidesRaise | AdventOfCode/Sources/Day11/main.swift:56 | sides bounded by the best are below any strictly larger total |
| PowerGrid.SidesExtend | AdventOfCode/Sources/Day11/main.swift:53-62 | a side whose maximum is not strictly larger keeps the best |
| PowerGrid.SidesStart | AdventOfCode/Sources/Day11/main.swift:56-61 | a new strict maximum bounds every side seen so far |
| PowerGrid.Board.constructor | AdventOfCode/Sources/Day11/main.swift:7-29 | every cell `cells[y-1][x-1]` holds the power level of (x, y) |
| PowerGrid.Board.Cell | AdventOfCode/Sources/Day11/main.swift:31-33 | the 1-based subscript gives the power level of (x, y) |
| PowerGrid.Board.TotalPower | AdventOfCode/Sources/Day11/main.swift:35-45 | the sum of the size × size square with top-left (x, y) |
| PowerGrid.Board.Scan | AdventOfCode/Sources/Day11/main.swift:67-85 | the scan (x outer, y inner, strict `>`) returns a square of maximum total, the first in scan order among equals |
| PowerGrid.Board.LargestTotalPower | AdventOfCode/Sources/Day11/main.swift:67-85 | as written (corners up to 298), for sides up to 3: the first square of maximum total |
| PowerGrid.Board.LargestTotalPowerSized | AdventOfCode/Sources/Day11/main.swift:47-65 | over sides 1..300 (corners up to `301 - size`), a square of maximum total, the smallest side among equal maxima and the first corner in scan order |
| Carts.Left | AdventOfCode/Sources/Day13/main.swift:50-61 | `Direction.left` is a quarter turn anticlockwise |
| Carts.Right | AdventOfCode/Sources/Day13/main.swift:63-74 | `Direction.right` is a quarter turn clockwise |
| Carts.LeftRightInverse | AdventOfCode/Sources/Day13/main.swift:50-74 | turning left and turning right undo each other |
| Carts.LeftFour | AdventOfCode/Sources/Day13/main.swift:50-61 | four left turns make a full circle and no fewer do; two are the reverse, three a right turn |
| Carts.PrecedesOrder | AdventOfCode/Sources/Day13/main.swift:86-94 | cart `<` is a strict order, total on carts on different cells, and it is exactly reading order (row, then column) |
| Carts.SameCartIgnoresPlace | AdventOfCode/Sources/Day13/main.swift:97-101 | cart `==` compares numbers only: a moved cart equals itself, and two carts on one cell differ when their numbers do |
| Carts.Heading | AdventOfCode/Sources/Day13/main.swift:141-156 | only `^ v < >` draw a cart, and they are allowed characters |
| Carts.PieceUnderCart | AdventOfCode/Sources/Day13/main.swift:129-160 | under a cart lies the straight piece along its heading; only a space lays no track |
| Carts.Laid | AdventOfCode/Sources/Day13/main.swift:126-127 | the track has one row per line and one cell per character |
| Carts.Numbered | AdventOfCode/Sources/Day13/main.swift:141-156 | one cart per cart glyph found |
| Carts.NumberedAppend | AdventOfCode/Sources/Day13/main.swift:141-156 | a newly found cart takes the next number, `nextID`, with no turns made |
| Carts.RowSpotsExact | AdventOfCode/Sources/Day13/main.swift:128-160 | a line yields a cart at column x with heading h exactly when its character x draws that heading |
| Carts.RowSpotsOrdered | AdventOfCode/Sources/Day13/main.swift:128-160 | the carts of a line are found left to right, inside the line |
| Carts.SpotsExact | AdventOfCode/Sources/Day13/main.swift:125-162 | a cart is found exactly where the drawing shows one |
| Carts.SpotsOrdered | AdventOfCode/Sources/Day13/main.swift:125-162 | the carts are found in strict reading order |
| Carts.ParsedCarts | AdventOfCode/Sources/Day13/main.swift:121-162 | parsed carts are numbered 0, 1, 2, ... in reading order, and each stands on the straight laid along its heading |
| Carts.ParseRow | AdventOfCode/Sources/Day13/main.swift:128-160 | a line is accepted exactly when every character is known; its row holds the piece of each character and its carts are appended with the next numbers |
| Carts.Parse | AdventOfCode/Sources/Day13/main.swift:121-162 | the drawing is accepted exactly when every character is known (otherwise `fatalError`), and yields the laid track and the numbered carts |
| Carts.FixMeaning | AdventOfCode/Sources/Day13/main.swift:164-181 | fixing decides every `/` and `\`: a decided corner has one north/south and one east/west exit, opens west exactly when its left neighbour joins, `\` becomes SW or NE and `/` becomes SE or NW; decided cells stay |
| Carts.FixedRow | AdventOfCode/Sources/Day13/main.swift:166-180 | the fixed row is as long as the row read |
| Carts.Fixed | AdventOfCode/Sources/Day13/main.swift:165-181 | the fixed track has as many rows as the track read |
| Carts.FixedDecided | AdventOfCode/Sources/Day13/main.swift:165-181 | after fixing no undecided curve is left, so printing the track never traps |
| Carts.FixRow | AdventOfCode/Sources/Day13/main.swift:166-180 | the in-place loop over one row computes the fixed row, each curve judged by its left neighbour as already fixed |
| Carts.FixCurves | AdventOfCode/Sources/Day13/main.swift:165-181 | the loop over all rows computes the fixed track |
| Carts.FixedRowConnected | AdventOfCode/Sources/Day13/main.swift:164-181 | corrected fixing: a curve opens west exactly when its fixed left neighbour opens east; the row keeps its length |
| Carts.FixedRowDecided | AdventOfCode/Sources/Day13/main.swift:164-181 | the corrected fixing leaves no curve undecided |
| Carts.FixedRowConnects | AdventOfCode/Sources/Day13/main.swift:164-181 | the corrected fixing connects every curve with its left neighbour |
| Carts.FixedRowMisses | AdventOfCode/Sources/Day13/main.swift:167-178 | as written, the row `/\` is fixed to two corners that do not connect (the second opens east instead of west); the corrected fixing joins them |
| Carts.MoveMeaning | AdventOfCode/Sources/Day13/main.swift:275-354 | a move steps one cell along the heading; it succeeds exactly when that cell exists, has track, is decided and, for a corner, opens towards the cart; straights keep the heading, corners turn into their other exit, intersections turn by the count and add one to it |
| Carts.TurnCycle | AdventOfCode/Sources/Day13/main.swift:336-348 | the intersection turns repeat every three crossings, and three in a row give back the original heading |
| CartRuns.Insert | AdventOfCode/Sources/Day13/main.swift:206 | insertion adds the cart to the carts and nothing else |
| CartRuns.InsertOrdered | AdventOfCode/Sources/Day13/main.swift:206 | inserting into ordered carts keeps them ordered |
| CartRuns.Sorted | AdventOfCode/Sources/Day13/main.swift:206 | `sort()` is a rearrangement of the carts |
| CartRuns.SortedOrdered | AdventOfCode/Sources/Day13/main.swift:206 | `sort()` puts the carts in reading order |
| CartRuns.SortedKeeps | AdventOfCode/Sources/Day13/main.swift:206 | carts already in reading order stay as they are |
| CartRuns.FirstAdjacent | AdventOfCode/Sources/Day13/main.swift:211-218 | the index found is the first neighbouring pair from k on that shares a cell; none is reported only when no neighbouring pair does |
| CartRuns.OrderedAdjacentComplete | AdventOfCode/Sources/Day13/main.swift:206-218 | in ordered carts any two carts on one cell make the neighbour check report |
| CartRuns.AdjacentCollision | AdventOfCode/Sources/Day13/main.swift:211-218 | the loop over neighbouring pairs returns the first pair on one cell |
| CartRuns.TickFirst | AdventOfCode/Sources/Day13/main.swift:208-219 | the loop over the carts computes one tick of `firstCollision` |
| CartRuns.FirstCollision | AdventOfCode/Sources/Day13/main.swift:194-223 | the sort-then-tick loop computes the run of `firstCollision` for the given number of ticks |
| CartRuns.MovedApart | AdventOfCode/Sources/Day13/main.swift:208-219 | moving one cart of carts on different cells keeps them apart exactly when it meets no other |
| CartRuns.ScanFirstFixedMeaning | AdventOfCode/Sources/Day13/main.swift:194-223 | the corrected tick ends without a report exactly when no two carts ever share a cell during it |
| CartRuns.MarksUpTo | AdventOfCode/Sources/Day13/main.swift:251-260 | a moved cart is marked exactly when some other cart stands on its cell |
| CartRuns.Remaining | AdventOfCode/Sources/Day13/main.swift:264 | `removeAll` never adds carts |
| CartRuns.RemainingMembers | AdventOfCode/Sources/Day13/main.swift:264 | `removeAll` keeps exactly the unmarked carts |
| CartRuns.MarkCollisions | AdventOfCode/Sources/Day13/main.swift:251-260 | the loop adds to the marks the moved cart and every cart on its cell |
| CartRuns.TickLast | AdventOfCode/Sources/Day13/main.swift:239-261 | the loop computes one tick of `lastCart`, skipping marked carts |
| CartRuns.SweepTick | AdventOfCode/Sources/Day13/main.swift:237-264 | sort, tick and removal compute the carts left after a tick |
| CartRuns.LastCart | AdventOfCode/Sources/Day13/main.swift:225-273 | the loop computes the run of `lastCart` for the given number of ticks |
| CartRuns.RemainingIgnores | AdventOfCode/Sources/Day13/main.swift:264 | marking a number no cart has removes nothing |
| CartRuns.RemainingDrop | AdventOfCode/Sources/Day13/main.swift:264 | marking one unmarked cart's number removes exactly one cart |
| CartRuns.RemainingSameIds | AdventOfCode/Sources/Day13/main.swift:248-264 | moving carts without renumbering leaves the same number unmarked |
| CartRuns.MoveAlone | AdventOfCode/Sources/Day13/main.swift:248-260 | a moved cart with no partner keeps the unmarked carts apart |
| CartRuns.MeetsOne | AdventOfCode/Sources/Day13/main.swift:248-260 | a moved cart meets at most one unmarked cart, because those were apart |
| CartRuns.MeetsApart | AdventOfCode/Sources/Day13/main.swift:248-260 | marking both crashed carts keeps the other unmarked carts apart |
| CartRuns.MoveFixedStep | AdventOfCode/Sources/Day13/main.swift:242-260 | a corrected move keeps numbers unique and unmarked carts apart, and changes the count of unmarked carts by an even number |
| CartRuns.SweepFixedPairs | AdventOfCode/Sources/Day13/main.swift:239-261 | a corrected tick removes carts in pairs, so the count keeps its parity |
| CartRuns.RemainingAll | AdventOfCode/Sources/Day13/main.swift:264 | with nothing marked every cart remains |
| CartRuns.TickFixedParity | AdventOfCode/Sources/Day13/main.swift:237-264 | after a corrected tick the number of carts has the parity it had, so an odd number of carts never runs out |
| CartRuns.RunLastEmpty | AdventOfCode/Sources/Day13/main.swift:266-271 | with no carts left, `lastCart` never returns |
| CartRuns.RunLastNever | AdventOfCode/Sources/Day13/main.swift:264-271 | a tick that leaves no cart makes `lastCart` run for ever |
| CartExamples.MissDrawing | AdventOfCode/Sources/Day13/main.swift:121-162 | the drawing `v>-` over `^  ` reads as the example track and carts |
| CartExamples.FirstCollisionMissed | AdventOfCode/Sources/Day13/main.swift:208-219 | as written, the first tick on that drawing reports nothing although two carts shared a cell during it |
| CartExamples.FirstCollisionFixedFinds | AdventOfCode/Sources/Day13/main.swift:208-219 | the corrected tick reports that collision on the first move |
| CartExamples.WreckDrawingTrack | AdventOfCode/Sources/Day13/main.swift:121-162 | the drawing `>+<` over ` ^ ` lays the example track |
| CartExamples.WreckDrawingCarts | AdventOfCode/Sources/Day13/main.swift:121-162 | that drawing holds the three example carts |
| CartExamples.LastCartWrecks | AdventOfCode/Sources/Day13/main.swift:239-261 | as written, the first tick marks all three carts, the third for meeting two already crashed |
| CartExamples.LastCartNoneLeft | AdventOfCode/Sources/Day13/main.swift:237-264 | as written, no cart is left after that tick |
| CartExamples.LastCartNeverFinishes | AdventOfCode/Sources/Day13/main.swift:225-273 | as written, `lastCart` never returns on that drawing, however many ticks it runs |
| CartExamples.LastCartFixedSpares | AdventOfCode/Sources/Day13/main.swift:237-264 | with the corrected check the third cart survives the first tick |
| CartExamples.LastCartFixedFinds | AdventOfCode/Sources/Day13/main.swift:225-273 | with the corrected check `lastCart` ends after one tick with the third cart on the crossing |
| Steps.InsertSorted | AdventOfCode/Sources/07/main.swift:86-87 | `append` then `sort()` on a sorted array adds exactly one step |
| Steps.InsertSortedStrict | AdventOfCode/Sources/07/main.swift:86-87 | inserting a new step into a strictly increasing array keeps it strictly increasing and adds exactly that step |
| Steps.SortedOfMeaning | AdventOfCode/Sources/07/main.swift:46 | `sorted()` on a set of steps gives a strictly increasing array holding exactly those steps |
| Steps.StrictUnique | AdventOfCode/Sources/07/main.swift:46 | a strictly increasing array is determined by its steps, so sorting a set has one result |
| Steps.StrictSorted | AdventOfCode/Sources/07/main.swift:46 | a strictly increasing array is the sorted form of its steps |
| Steps.DistinctCard | AdventOfCode/Sources/07/main.swift:92 | an array without repeats has as many steps as its set, which the count check relies on |
| Steps.BuildGraph | AdventOfCode/Sources/07/main.swift:15-43 | the loop over instructions yields every step named, and a dependency entry for exactly the waiting steps, holding all their prerequisites |
| Steps.AllStep | AdventOfCode/Sources/07/main.swift:28-29 | one more instruction adds its two steps to the step set |
| Steps.DepsStep | AdventOfCode/Sources/07/main.swift:32-42 | one more instruction adds its first step to the entry of its second, creating the entry when missing |
| Steps.BuiltGraph | AdventOfCode/Sources/07/main.swift:15-43 | the graph built from any instructions has only known steps, and every entry is non-empty |
| Steps.TopoOrder | AdventOfCode/Sources/07/main.swift:69-90 | the part 1 order from the done steps on is empty exactly when no step is ready, and otherwise starts with a ready step |
| Steps.TopoFresh | AdventOfCode/Sources/07/main.swift:69-90 | the part 1 order takes only steps not yet done, each once |
| Steps.TopoLeast | AdventOfCode/Sources/07/main.swift:69-90 | each step of the order is, when taken, ready and alphabetically first among the ready steps |
| Steps.TopoPrereqs | AdventOfCode/Sources/07/main.swift:69-90 | a step is taken only after every step it waits for |
| Steps.TopoStuck | AdventOfCode/Sources/07/main.swift:69-94 | when the order ends, each step left waits for a step also left, so the steps of a cycle are never taken |
| Steps.TopoComplete | AdventOfCode/Sources/07/main.swift:92-94 | comparing the order's length with the number of steps decides whether every step was taken |
| Steps.TopoStep | AdventOfCode/Sources/07/main.swift:69-90 | the order ends when nothing is ready, and otherwise goes on with the least ready step |
| Steps.Roots | AdventOfCode/Sources/07/main.swift:63 | the starting queue holds exactly the steps that wait for nothing, in increasing order |
| Steps.RootsReady | AdventOfCode/Sources/07/main.swift:63 | those are exactly the steps ready at the start |
| Steps.ScanReady | AdventOfCode/Sources/07/main.swift:78-89 | a scan of the dependency map, in any key order, adds exactly the waiting steps not done, not queued, not in progress and with every prerequisite done, and keeps the queue strictly increasing |
| Steps.ReadyStep | AdventOfCode/Sources/07/main.swift:69-89 | after the least ready step is done, the ready steps are the other ready ones and those the scan adds, so the queue tracks the ready steps |
| Steps.Order | AdventOfCode/Sources/07/main.swift:60-94 | part 1 returns the alphabetically-least order of all steps, or stops (`fatalError`) when some step is never taken |
| Workers.Duration | AdventOfCode/Sources/07/main.swift:174-175 | a step lasts its code point minus 64 plus the additional time, and traps exactly when the code point is below 64 |
| Workers.CompletedSteps | AdventOfCode/Sources/07/main.swift:132-139 | the completed array holds exactly the steps finishing now |
| Workers.CompletedDistinct | AdventOfCode/Sources/07/main.swift:132-139 | while no two workers share a step, no step completes twice |
| Workers.FreedBusy | AdventOfCode/Sources/07/main.swift:134-139 | freeing the finished workers leaves exactly the other steps in progress |
| Workers.FreedNone | AdventOfCode/Sources/07/main.swift:134-139 | when nothing finishes, no worker is freed |
| Workers.CollectDone | AdventOfCode/Sources/07/main.swift:132-139 | the loop over the workers records the finished steps in worker order and frees those workers |
| Workers.SortSteps | AdventOfCode/Sources/07/main.swift:143 | `sorted()` on the completed steps gives them in increasing order |
| Workers.Assign | AdventOfCode/Sources/07/main.swift:170-180 | the assignment keeps the number of workers |
| Workers.AssignQueue | AdventOfCode/Sources/07/main.swift:170-180 | the idle workers take a prefix of the queue |
| Workers.AssignBusy | AdventOfCode/Sources/07/main.swift:170-180 | the steps in progress afterwards are those before and the steps taken |
| Workers.AssignKeeps | AdventOfCode/Sources/07/main.swift:170-180 | busy workers keep their tasks, and a new task finishes its step's duration after now |
| Workers.AssignFills | AdventOfCode/Sources/07/main.swift:170-180 | no worker stays idle while a step is queued |
| Workers.AssignDistinct | AdventOfCode/Sources/07/main.swift:170-180 | steps taken from a queue without repeats, apart from those in progress, leave no two workers on one step |
| Workers.Settled | AdventOfCode/Sources/07/main.swift:132-167 | recording the finished tasks keeps the clock and the number of workers |
| Workers.SettledShape | AdventOfCode/Sources/07/main.swift:132-167 | recording the finished tasks leaves no worker on a finished task, only appends to the order, and adds exactly the finishing steps to it |
| Workers.Advance | AdventOfCode/Sources/07/main.swift:130-188 | a second that does not trap moves the clock on by one and keeps the number of workers |
| Workers.AdvanceExtends | AdventOfCode/Sources/07/main.swift:130-188 | a second that does not trap only appends to the order |
| Workers.RunFloor | AdventOfCode/Sources/07/main.swift:130-189 | a finished run has one order entry per step and ends no earlier than it started |
| Workers.RunExtends | AdventOfCode/Sources/07/main.swift:130-189 | a finished run extends the order it started with |
| Workers.Follow | AdventOfCode/Sources/07/main.swift:130-189 | a run finishes only after a second that did not trap, with one order entry per step and no earlier than that second |
| Workers.SettleKeeps | AdventOfCode/Sources/07/main.swift:132-167 | recording the finished tasks keeps the schedule invariant: the queue sorted without repeats, no step on two workers, queued and busy steps apart and together exactly the ready steps, each done step once in the order after its prerequisites |
| Workers.AssignOk | AdventOfCode/Sources/07/main.swift:170-188 | the idle workers taking steps keeps the invariant |
| Workers.AdvanceKeeps | AdventOfCode/Sources/07/main.swift:130-188 | one second of the loop keeps the invariant |
| Workers.StartOk | AdventOfCode/Sources/07/main.swift:117-125 | the state before the loop satisfies the invariant |
| Workers.RunDone | AdventOfCode/Sources/07/main.swift:130-189 | when the loop ends, the order holds every step exactly once, each after the steps it waits for |
| Workers.ScheduleDone | AdventOfCode/Sources/07/main.swift:112-189 | a finished part 2 schedule does every step once, after its prerequisites |
| Workers.AssignWork | AdventOfCode/Sources/07/main.swift:170-180 | the loop over the workers computes the assignment |
| Workers.Record | AdventOfCode/Sources/07/main.swift:143-146 | the finished steps are appended to the order in sorted order and marked done |
| Workers.Settle | AdventOfCode/Sources/07/main.swift:132-167 | recording the finished tasks computes the specified next state |
| Workers.PlaceWork | AdventOfCode/Sources/07/main.swift:170-188 | assigning the idle workers and advancing the clock computes the specified next state |
| Workers.Tick | AdventOfCode/Sources/07/main.swift:132-188 | one second of the loop computes the specified next state |
| Workers.Second | AdventOfCode/Sources/07/main.swift:130-188 | one second from a state that keeps the invariant leads to another that does |
| Workers.Schedule | AdventOfCode/Sources/07/main.swift:112-189 | part 2 computes the specified run of the loop from the start state |
| Workers.Round | AdventOfCode/Sources/07/main.swift:130-188 | one pass of the loop body either stops with the run's outcome or yields a state that keeps the invariant and from which the run goes on the same |
| Workers.Drive | AdventOfCode/Sources/07/main.swift:130-189 | the loop computes the specified run from any state that keeps the invariant |
| Workers.RunStep | AdventOfCode/Sources/07/main.swift:130 | the loop stops when as many steps are done as there are steps, and otherwise goes on from the next second |
| Coordinates.Distance | AdventOfCode/Sources/06/main.swift:12-14 | the Manhattan distance is zero exactly between points on the same cell |
| Coordinates.DistanceMetric | AdventOfCode/Sources/06/main.swift:12-14 | the distance is symmetric and obeys the triangle inequality |
| Coordinates.LeastBounds | AdventOfCode/Sources/06/main.swift:48-69 | the minimum found from `Int.max` is at most every coordinate and is one of them |
| Coordinates.GreatestBounds | AdventOfCode/Sources/06/main.swift:50-69 | the maximum found from `Int.min` is at least every coordinate and is one of them |
| Coordinates.Bounds | AdventOfCode/Sources/06/main.swift:47-69 | the bounds loop computes the least and greatest x and y |
| Coordinates.PrefixCoordinates | AdventOfCode/Sources/06/main.swift:53-69 | one more point adds its coordinates at the end |
| Coordinates.NearestUnique | AdventOfCode/Sources/06/main.swift:92-105 | at most one point is strictly nearest to a cell |
| Coordinates.Label | AdventOfCode/Sources/06/main.swift:84-106 | a cell's label is -1 or the id of a point strictly nearest to it, and -1 whenever no point is strictly nearest |
| Coordinates.LabelMeaning | AdventOfCode/Sources/06/main.swift:84-106 | a cell is labelled with a point's id exactly when that point is strictly nearest, and -1 exactly when none is |
| Coordinates.LabelAtPoint | AdventOfCode/Sources/06/main.swift:84-106 | a cell holding exactly one point is labelled with that point |
| Coordinates.LabelTied | AdventOfCode/Sources/06/main.swift:98-106 | a cell with two points at the same least distance is labelled -1 |
| Coordinates.Closest | AdventOfCode/Sources/06/main.swift:86-106 | the loop keeping the closest points so far computes the cell's label |
| Coordinates.ModestReachable | AdventOfCode/Sources/06/main.swift:89-93 | within the bound the input allows, no distance overflows |
| Coordinates.BuildBox | AdventOfCode/Sources/06/main.swift:78-110 | the box is built row by row from the labels of its cells |
| Coordinates.Box | AdventOfCode/Sources/06/main.swift:78-110 | the box has `height` rows of `width` cells, each -1 or the id of a point strictly nearest to that cell |
| Coordinates.Border | AdventOfCode/Sources/06/main.swift:135-144 | every label of the first and of the last row is on the edge |
| Coordinates.Infinites | AdventOfCode/Sources/06/main.swift:135-144 | the infinite labels are exactly those on the edge of the box |
| Coordinates.BorderParts | AdventOfCode/Sources/06/main.swift:138-144 | the edge is the first row, the last row and both ends of each row |
| Coordinates.CountRowOccurs | AdventOfCode/Sources/06/main.swift:151-167 | a row counts a label exactly when the label occurs in it |
| Coordinates.CountBoxOccurs | AdventOfCode/Sources/06/main.swift:151-167 | the box counts a label exactly when some cell holds it |
| Coordinates.Areas | AdventOfCode/Sources/06/main.swift:148-167 | the tally has an entry for exactly the labels that occur and are not infinite, each holding its number of cells |
| Coordinates.LargestArea | AdventOfCode/Sources/06/main.swift:171-173 | `areas.max` by value returns an entry whose value is the greatest |
| Coordinates.LargestFiniteArea | AdventOfCode/Sources/06/main.swift:47-175 | part 1 returns a label off the edge with its area, no such label having a larger area; it stops only when every such area is empty |
| Coordinates.ModestBounds | AdventOfCode/Sources/06/main.swift:47-74 | for points in the allowed quadrant the box has at least one row and one column |
| Coordinates.TotalZero | AdventOfCode/Sources/06/main.swift:186 | the total distance is zero exactly at a cell all points share |
| Coordinates.TotalAtLeast | AdventOfCode/Sources/06/main.swift:186 | the total distance is at least the distance to each point |
| Coordinates.SafePoints | AdventOfCode/Sources/06/main.swift:183-192 | the safe list holds exactly the window cells whose total distance is below the safe distance, column by column and top to bottom |
| Coordinates.SafeNear | AdventOfCode/Sources/06/main.swift:178-192 | every safe cell is closer than the safe distance to each point |
| Coordinates.ModestWindow | AdventOfCode/Sources/06/main.swift:183-184 | the window of a non-empty input is not empty, so the closed ranges do not trap |
| Coordinates.SafeRegion | AdventOfCode/Sources/06/main.swift:47-69 | part 2 lists exactly the safe cells of the window spanned by the points, in scan order |
| Guards.MinutesAsleepAppend | AdventOfCode/Sources/04/main.swift:11-13 | one more sleep range adds its length to the minutes asleep |
| Guards.RestedAsleep | AdventOfCode/Sources/04/main.swift:11-13 | a shift whose ranges run forwards sleeps no negative time |
| Guards.StartMinute | AdventOfCode/Sources/04/main.swift:84 | a shift's start minute lies in -60..59 and is negative exactly when it begins before midnight |
| Guards.ShiftDate | AdventOfCode/Sources/04/main.swift:72-79 | a shift keeps its date exactly when it begins in hour 0; otherwise it belongs to the next day |
| Guards.Read | AdventOfCode/Sources/04/main.swift:63-108 | a shift line stores the open shift and opens a new one with its date and start minute and no ranges; a sleep line records its minute; a wake line is fatal exactly when no sleep minute or no shift is known, or the range would run backwards, and otherwise appends the range from the sleep minute to the wake minute; an unmatched line is fatal |
| Guards.Replay | AdventOfCode/Sources/04/main.swift:62-109 | a replay that has not stopped holds, once the open shift is stored, one shift per shift line |
| Guards.Shifts | AdventOfCode/Sources/04/main.swift:62-114 | the whole log yields one shift per shift line, and fails exactly when the replay stops |
| Guards.Process | AdventOfCode/Sources/04/main.swift:46-115 | the replay loop yields the shifts of the log, or stops where the program calls `fatalError` |
| Guards.ReplayStops | AdventOfCode/Sources/04/main.swift:101-108 | once the replay stops at a line, the whole log is rejected |
| Guards.ReplayKeeps | AdventOfCode/Sources/04/main.swift:63-115 | a replay that has not stopped has an open shift exactly after a shift line, a last minute asleep exactly after a sleep line, and only forward ranges |
| Guards.ShiftsWellFormed | AdventOfCode/Sources/04/main.swift:46-115 | a successful replay yields one shift per shift line, each with forward ranges and a non-negative time asleep |
| Guards.WakeWithoutSleep | AdventOfCode/Sources/04/main.swift:101-103 | a wake line before any sleep line is fatal |
| Guards.UnparsedFatal | AdventOfCode/Sources/04/main.swift:107-108 | a line that matches no pattern is fatal |
| Guards.WakeCloses | AdventOfCode/Sources/04/main.swift:94-106 | a wake line adds the range from the last sleep minute to the wake minute |
| Guards.LeadingEmpty | AdventOfCode/Sources/04/main.swift:123-125 | the empty tally, with best `Int.min`, has a leader vacuously |
| Guards.SumAbsent | AdventOfCode/Sources/04/main.swift:127-141 | a key that never occurs totals zero |
| Guards.SumSnoc | AdventOfCode/Sources/04/main.swift:129-135 | one more event adds its weight to its own key's total only |
| Guards.TalliedStep | AdventOfCode/Sources/04/main.swift:129-135 | growing or creating the entry of the event's key gives the totals of one more event |
| Guards.HeldStep | AdventOfCode/Sources/04/main.swift:137-140 | after an event the leader is its key when its total strictly exceeds the best, and the old leader otherwise |
| Guards.TallyStep | AdventOfCode/Sources/04/main.swift:127-141 | one more event keeps totals, best and leader consistent |
| Guards.Fold | AdventOfCode/Sources/04/main.swift:127-141 | the tally's best is never below `Int.min`, its leader is the starting key or a key it holds, and the last event's key always has an entry |
| Guards.FoldLeads | AdventOfCode/Sources/04/main.swift:127-141 | with no negative weight, the tally holds every key's sum, and its leader has the greatest total and was first to reach it |
| Guards.FoldSnoc | AdventOfCode/Sources/04/main.swift:127-141 | the tally of one more event is one more step of the tally |
| Guards.Sleepiest | AdventOfCode/Sources/04/main.swift:122-141 | the loop over shifts computes the tally of minutes asleep per guard, from `Int.min` and `""` |
| Guards.SleepiestLeads | AdventOfCode/Sources/04/main.swift:122-141 | the sleepiest guard found has the greatest total of minutes asleep, and was first to reach it |
| Guards.OnDuty | AdventOfCode/Sources/04/main.swift:146 | the filter keeps exactly the shifts of the given guard |
| Guards.SleepEventsCount | AdventOfCode/Sources/04/main.swift:153-154 | forward ranges produce as many minutes as their minutes asleep |
| Guards.MinuteWeights | AdventOfCode/Sources/04/main.swift:155-162 | every minute adds one to its count |
| Guards.SleepiestMinuteLeads | AdventOfCode/Sources/04/main.swift:146-170 | the minute found is one asleep most often for that guard, the first to reach that count |
| Guards.SumRange | AdventOfCode/Sources/04/main.swift:154 | a range counts a minute once exactly when it covers it |
| Guards.SumMinutes | AdventOfCode/Sources/04/main.swift:152-170 | a minute's count in the tally is the number of sleep ranges covering it |
| Guards.SumAppend | AdventOfCode/Sources/04/main.swift:152-170 | totals add over consecutive runs of events |
| Guards.TallyRange | AdventOfCode/Sources/04/main.swift:154-168 | the innermost loop tallies every minute of one range |
| Guards.MinuteStep | AdventOfCode/Sources/04/main.swift:154-168 | counting one more minute of a range is one more step of the tally |
| Guards.BumpCases | AdventOfCode/Sources/04/main.swift:155-167 | the loop body's two branches are the tally step: a strictly larger count takes the lead, an equal one does not |
| Guards.TallySleeps | AdventOfCode/Sources/04/main.swift:153-169 | the middle loop tallies every range of one shift |
| Guards.SleepiestMinute | AdventOfCode/Sources/04/main.swift:146-170 | the outer loop computes the tally of the guard's minutes, from `Int.min` for both the count and the minute |
| Stars.Wrap | AdventOfCode/Sources/10/main.swift:26 | `&+` and `&-` on `Int32` wrap into the 32-bit range and leave values in range unchanged |
| Stars.WrapShift | AdventOfCode/Sources/10/main.swift:26 | adding a multiple of 2^32 does not change the wrapped value |
| Stars.WrapAdd | AdventOfCode/Sources/10/main.swift:26 | wrapping an intermediate sum changes nothing |
| Stars.MakePoint | AdventOfCode/Sources/10/main.swift:19-23 | the point is built exactly when all four values fit `Int32` (otherwise the conversion traps), and then holds them |
| Stars.Step | AdventOfCode/Sources/10/main.swift:25-28 | a step keeps the point's number and velocity and keeps its position in 32-bit range |
| Stars.StepAll | AdventOfCode/Sources/10/main.swift:122 | stepping all points keeps their number |
| Stars.Advance | AdventOfCode/Sources/10/main.swift:115-125 | the points after any number of seconds are as many as before |
| Stars.AdvanceSucc | AdventOfCode/Sources/10/main.swift:122 | one more second is one more step of every point |
| Stars.StepDrift | AdventOfCode/Sources/10/main.swift:25-28 | one step after n seconds of drift is n + 1 seconds of drift |
| Stars.AdvanceDrift | AdventOfCode/Sources/10/main.swift:25-28 | after n seconds each point is at its position plus n times its velocity, wrapped once: the wrap of each step does not accumulate |
| Stars.AdvanceExact | AdventOfCode/Sources/10/main.swift:25-28 | without overflow the position after n seconds is exactly position plus n times velocity |
| Stars.CornersOf | AdventOfCode/Sources/10/main.swift:45-70 | starting from the sentinels, the least corner stays at most `Int32.max` and the greatest at least `Int32.min` |
| Stars.CornersContain | AdventOfCode/Sources/10/main.swift:51-67 | every point lies within the corners on both axes |
| Stars.CornersEnclose | AdventOfCode/Sources/10/main.swift:45-70 | with at least one point in 32-bit range, each side of the corners touches some point |
| Stars.Frame | AdventOfCode/Sources/10/main.swift:40-72 | the box has the corners as its ends and dimensions in 32-bit range |
| Stars.SizeWraps | AdventOfCode/Sources/10/main.swift:71 | `max &- min &+ (1, 1)` equals `max - min + 1` wrapped once on each axis |
| Stars.FrameDimensions | AdventOfCode/Sources/10/main.swift:71 | a box narrower than `Int32.max` has dimensions equal to its sides plus one, at least one |
| Stars.EmptyFrame | AdventOfCode/Sources/10/main.swift:45-71 | with no points the sentinels remain and the wrapped dimensions are (2, 2) |
| Stars.NewBounds | AdventOfCode/Sources/10/main.swift:45-72 | the bounds loop computes the corners and the wrapped dimensions |
| Stars.AllWideAt | AdventOfCode/Sources/10/main.swift:119 | every second before the first sane one has a box too wide and too tall |
| Stars.AllShrinkAt | AdventOfCode/Sources/10/main.swift:139 | every second inspected does not grow the box |
| Stars.Tick | AdventOfCode/Sources/10/main.swift:122-123 | one pass of either loop's body moves the points one second on and measures their box |
| Stars.Converge | AdventOfCode/Sources/10/main.swift:115-125 | the convergence loop stops at the first second whose box is not both wider than 256 and taller than 50, having stepped the points that far |
| Stars.Inspect | AdventOfCode/Sources/10/main.swift:137-170 | the inspection loop returns the last second before the box first grows in width or height |
| Stars.Message | AdventOfCode/Sources/10/main.swift:111-170 | the message second is found from the first sane second, with the box shrinking up to it and growing right after |
| Stars.ShownFirstSane | AdventOfCode/Sources/10/main.swift:119 | the sane second found is the first second whose box is sane |
| Stars.ShrinkRun | AdventOfCode/Sources/10/main.swift:139 | over a run of seconds that do not grow the box, the last box is no larger than any earlier one |
| Stars.ShownSmallest | AdventOfCode/Sources/10/main.swift:139-170 | the message second has the smallest box among all seconds inspected up to it |
| Marbles.Next | AdventOfCode/Sources/Day09/main.swift:78-79 | the marble clockwise of a position is a position of the circle |
| Marbles.Prev | AdventOfCode/Sources/Day09/main.swift:66-67 | the marble counter-clockwise of a position is a position of the circle |
| Marbles.BackByMod | AdventOfCode/Sources/Day09/main.swift:66 | going k places counter-clockwise is subtracting k modulo the size of the circle |
| Marbles.TakenIndex | AdventOfCode/Sources/Day09/main.swift:66 | in a circle of at least seven, the marble taken is the one seven places before the current one, wrapping round the end at most once |
| Marbles.Insert | AdventOfCode/Sources/Day09/main.swift:76-87 | placing a marble grows the circle by one and makes the new marble current |
| Marbles.Remove | AdventOfCode/Sources/Day09/main.swift:66-74 | taking a marble leaves a circle with a current marble |
| Marbles.InsertBetween | AdventOfCode/Sources/Day09/main.swift:76-87 | the new marble sits between the marbles one and two places clockwise of the old current one, and nothing else is added |
| Marbles.RemoveCurrent | AdventOfCode/Sources/Day09/main.swift:66-74 | the new current marble is the one clockwise of the marble seven places counter-clockwise |
| Marbles.RemoveTaken | AdventOfCode/Sources/Day09/main.swift:66-74 | in a circle of two or more, exactly the taken marble leaves |
| Marbles.Turn | AdventOfCode/Sources/Day09/main.swift:61-94 | a turn keeps the number of players and leaves a circle with a current marble |
| Marbles.Play | AdventOfCode/Sources/Day09/main.swift:53-95 | the game has one score per player and a circle with a current marble |
| Marbles.Zeros | AdventOfCode/Sources/Day09/main.swift:53 | every player starts at zero |
| Marbles.MaxMeaning | AdventOfCode/Sources/Day09/main.swift:97 | the maximum is one of the scores and no score exceeds it |
| Marbles.TurnPlayer | AdventOfCode/Sources/Day09/main.swift:93 | each turn passes to the next player, wrapping around |
| Marbles.PlayPlayer | AdventOfCode/Sources/Day09/main.swift:54-94 | after marble m the next player is m modulo the number of players, so marble m is played by player (m - 1) modulo it |
| Marbles.InsertDistinct | AdventOfCode/Sources/Day09/main.swift:76-87 | placing a new marble keeps the marbles distinct |
| Marbles.RemoveDistinct | AdventOfCode/Sources/Day09/main.swift:66-74 | taking a marble keeps the marbles distinct |
| Marbles.InsertHolds | AdventOfCode/Sources/Day09/main.swift:76-87 | placing marble m keeps each marble placed at most once, all up to m |
| Marbles.RemoveHolds | AdventOfCode/Sources/Day09/main.swift:66-74 | taking a marble keeps that property |
| Marbles.PlayHolds | AdventOfCode/Sources/Day09/main.swift:53-95 | the circle holds each marble placed so far at most once |
| Marbles.PlaySize | AdventOfCode/Sources/Day09/main.swift:61-95 | each marble grows the circle by one and each multiple of 23 shrinks it by one |
| Marbles.ScoringCount | AdventOfCode/Sources/Day09/main.swift:61-66 | at a multiple `m` of 23, marble 0 and the `m - 1` marbles placed since, less two for each earlier multiple of 23, leave at least 23 in the circle |
| Marbles.ScoringSize | AdventOfCode/Sources/Day09/main.swift:63-66 | when a multiple of 23 comes up the circle holds at least 23 marbles, so the seven steps back stay in the circle |
| Marbles.TurnConserves | AdventOfCode/Sources/Day09/main.swift:61-94 | a turn moves value between circle and scores and adds only the new marble's |
| Marbles.TriangleClosed | AdventOfCode/Sources/Day09/main.swift:61-95 | 0 + 1 + ... + n is n(n + 1)/2 |
| Marbles.PlayConserves | AdventOfCode/Sources/Day09/main.swift:53-95 | no marble is lost: scores and circle together hold 0 + 1 + ... + last |
| Marbles.TurnScores | AdventOfCode/Sources/Day09/main.swift:63-74 | only a multiple of 23 scores, only for the player on turn, by the marble plus the taken marble |
| Marbles.InsertClockwise | AdventOfCode/Sources/Day09/main.swift:81-85 | after placing, every `cw` link is the next marble clockwise |
| Marbles.InsertCounterclockwise | AdventOfCode/Sources/Day09/main.swift:82-84 | after placing, every `ccw` link is the next marble counter-clockwise |
| Marbles.InsertLinks | AdventOfCode/Sources/Day09/main.swift:78-85 | rewiring the two neighbours around the new marble links the circle in both directions |
| Marbles.RemoveClockwise | AdventOfCode/Sources/Day09/main.swift:70 | after taking, every `cw` link is the next marble clockwise |
| Marbles.RemoveCounterclockwise | AdventOfCode/Sources/Day09/main.swift:71 | after taking, every `ccw` link is the next marble counter-clockwise |
| Marbles.RemoveLinks | AdventOfCode/Sources/Day09/main.swift:67-71 | linking the taken marble's neighbours to each other links the circle without it in both directions |
| Marbles.CounterclockwiseStep | AdventOfCode/Sources/Day09/main.swift:66 | following `ccw` from k places back reaches k + 1 places back |
| Marbles.CounterclockwiseSeven | AdventOfCode/Sources/Day09/main.swift:66 | `.ccw` seven times from the current marble reaches the marble taken |
| Marbles.TakeRewires | AdventOfCode/Sources/Day09/main.swift:66-74 | unlinking the taken marble and making its clockwise neighbour current leaves the circle without it, distinct and linked both ways |
| Marbles.Circle.constructor | AdventOfCode/Sources/Day09/main.swift:57-59 | marble 0 linked to itself is the circle of one marble |
| Marbles.Circle.Place | AdventOfCode/Sources/Day09/main.swift:76-87 | placing a marble on the links gives the circle with it inserted, still linked both ways |
| Marbles.Circle.SevenBack | AdventOfCode/Sources/Day09/main.swift:66 | following `ccw` seven times from the current marble yields the marble taken |
| Marbles.Circle.Take | AdventOfCode/Sources/Day09/main.swift:66-74 | taking returns the marble seven places back and leaves the circle without it, still linked both ways |
| Marbles.PlayStep | AdventOfCode/Sources/Day09/main.swift:61-95 | the game up to marble m is the game up to m - 1 followed by marble m's turn |
| Marbles.TurnScoring | AdventOfCode/Sources/Day09/main.swift:63-74 | on a multiple of 23 the taken marble and the new one go to the player on turn |
| Marbles.TurnPlacing | AdventOfCode/Sources/Day09/main.swift:75-88 | on other marbles the marble is placed and no score changes |
| Marbles.PlayOver | AdventOfCode/Sources/Day09/main.swift:61 | once the marbles run out, the game is the game up to the last marble |
| Marbles.HighScore | AdventOfCode/Sources/Day09/main.swift:51-98 | with at least one player the high score is one of the final scores and no score exceeds it; with none there is no answer (`scores.max()!` traps) |
| Marbles.Maximum | AdventOfCode/Sources/Day09/main.swift:97 | `scores.max()` is the largest score |
| Marbles.PlayMarble | AdventOfCode/Sources/Day09/main.swift:63-88 | one turn on the linked circle and the scores array is the specified turn |
| Marbles.Run | AdventOfCode/Sources/Day09/main.swift:51-98 | `run` returns the high score of the game, and stops when there are no players |

## Left out

- Input handling is not modelled: `LineReader`, `FileHandle`, `CommandLine.arguments`, `NSRegularExpression` matching and `Int(String)` conversion. Every solver receives its input already parsed. The Day 1 line splitting is the exception (`Frequencies.SplitLines`).
- Output is not modelled: every `print`, `description`, `printTrack`, `printCircle` and `printScoreBoard`. The Day 15 glyphs are kept because parsing and printing form a round trip (`Combat.ParseThenRender`).
- The drawing and animation code is not modelled: `Canvas`, `Animator`, `ColorGenerator`, the Day 6 pictures from line 197 on and the Day 10 frames (lines 131-178). It is floating-point graphics and file output.
- The build manifests and `LineReaderTests.swift` are not modelled. They hold no logic of the solvers.
- Loops with no bound in the source run with a `fuel` bound and report when it runs out, because the code gives no termination argument. This covers `Frequencies.FirstRepeat`, `Recipes.ScoreBoard.FindPattern`, `CaveBattle.Battle`, `CartRuns.FirstCollision`, `CartRuns.LastCart`, `Workers.Schedule`, `Stars.Converge`, `Stars.Inspect` and `Stars.Message`.
- Combat.Reconstruct: the `cameFrom` chain is followed for at most as many links as the map holds, and the search state is proved to allow that many. That the chain never repeats a point, so that the path has no repeated point, is not proved.
- CaveBattle.Cave.ShortestPath: no claim that the path is shortest. The code reads the cost of the neighbour instead of the current point (`Day15/main.swift:503-506`), so it is a greedy best-first search. The model reproduces that search and proves only that its result is a walk through empty cells.
- CaveBattle.Cave.NextRound: requires a rectangular grid with a wall border. The source reads neighbours without bounds checks and would trap on other grids.
- Hit points and unit ids in Day 15 are unbounded integers. Swift's `Int` overflow is not modelled; hit points only fall from 200.
- Recipes.FinalScore: the concrete answers asserted by the Day 14 tests (5158916779 after 9, and 9 for [5,1,5,8,9]) are not proved. Unrolling the board that far costs too much. The general properties of `finalScore` and `recipes` are proved instead.
- Marbles.Run: the commented expectations (9 players, last marble 25 gives 32; 10 players, 1618 gives 8317) are not proved. Unrolling the game that far costs too much.
- Marbles.Circle.Place and Marbles.Circle.Take: the `Marble` objects and their `cw`/`ccw` references are modelled as two sequences indexed by marble value. Each marble's links are updated in place, but object identity and aliasing between `Marble` references are not modelled.
- Marbles.Play: scores are unbounded integers. The 64-bit overflow of `Int` is not modelled; it is far beyond the puzzle sizes.
- Device.Compute.Addr and the other opcode methods: registers are natural numbers and the register indices must be in range. The source takes registers from `\d+` input, so they are never negative, and it traps on an index out of range. `mulr`/`muli` overflow of `Int` is not modelled.
- Device.CountThreeOrMore: the second mode, `part2`, is read from the command line but the source does nothing for it, so nothing is modelled for it.
- Pots.Hall.Next: requires at least one plant. Without one the compaction loop of lines 72-85 runs off the array.
- PowerGrid.Board.LargestTotalPower: requires a side of at most 3. The source scans corners 1...298, which leaves the grid for larger sides (see Findings).
- PowerGrid.Board.LargestTotalPower: the size-3 answers asserted by the Day 11 tests (serial 18 gives (33, 45) with 29, serial 42 gives (21, 61) with 30) are not proved. Each needs all 298 × 298 squares of a concrete board summed; the first-maximum property of the scan is proved instead.
- BoxIds.FindPair: requires at least one id. The source reads `boxes[0]` and traps on an empty input.
- Coordinates.LargestFiniteArea: requires points in the quadrant with coordinates below 2^62, so distances and their sums stay within `Int`. The input format allows only non-negative coordinates; the 64-bit overflow beyond that bound is not modelled.
- Coordinates.LargestFiniteArea: also requires at least one point. With none, the bounds keep their sentinels `Int.max` and `Int.min`, so `height` is `Int.min + 1` and the source traps on the range `0 ..< height` (Sources/06/main.swift:73-81). The helpers `Coordinates.ModestBounds` and `Coordinates.ModestWindow` carry the same requirement.
- Coordinates.SafeRegion: requires at least one point. With none, the source traps on the range `minX...maxX` (Sources/06/main.swift:183), and the model does not capture the trap.
- Guards.Process: log lines are given already sorted by timestamp, as `reader.sorted()` leaves them. Dates are day numbers, so `calendar.date(byAdding:)` is the successor of the day number, without month or year arithmetic.
- Steps.BuildGraph: step names are single characters, as the puzzle input has them. The source uses strings.
- Workers.Duration: a step's code point is its character's code, and the unsigned 32-bit subtraction traps below 64. No other width of `UInt32` is modelled.
- CartRuns.Sorted: `sort()` does not fix the order of carts on the same cell. The model keeps their original order, which is one of the orders the program may produce.
- Carts.Move: a move off the track or onto a blank returns nothing, where the source traps or stops with `fatalError`.
- Frequencies.ShiftIterator.constructor: infinite mode requires at least one shift. The source accepts an empty list and traps at `shifts[head]` on the first `next()` (Sources/01/main.swift:42); the model does not capture that trap.
- Frequencies.FirstRepeat: requires at least one shift, for the same reason. Its loop draws from the infinite iterator, so the source traps on an empty list. `Frequencies.Cursor`, `Frequencies.Freq` and the lemmas about them carry the same requirement.
- Frequencies.UnseededStart: the first repeated frequency does not count the starting frequency 0, as in both sources. This is stated, not corrected, because the intent is not evident from the code.

## Findings

| source | as written | input that shows it | evidently intended | confidence | as-written member | corrected member |
|---|---|---|---|---|---|---|
| AdventOfCode/Sources/Day14/main.swift:78-92 | the windows are searched only once the board holds at least the pattern's length plus 3 scores, and then only the last three windows ending before the newest score | pattern `3 7`: the board grows from 2 to 4 scores, so the window at position 0 is never looked at and the answer 0 is never returned | every window ending in one of the scores added since the last search is looked at, from position 0 on | not executed | Recipes.SearchSkipsStart | Recipes.SearchFixedFindsStart |
| AdventOfCode/Sources/Day11/main.swift:67-85 | the top-left corner of a square runs over 1...298 whatever the square's size | any serial number with size 4: the square at corner 298 reaches cell 301, outside the 300 by 300 grid (the tests at lines 161-173 expect sizes 9 and 12) | the corner runs over 1...(301 - size) | not executed | PowerGrid.WrittenScanInGrid | PowerGrid.FixedScanInGrid |
| AdventOfCode/Sources/Day13/main.swift:164-181 | a curve is read as joined to its left neighbour only when that neighbour is a straight east-west piece or a crossing | the row `/\`: the `\` is read as turning north-east although the `/` before it leads into it | a curve to the left that opens east also counts as a joined neighbour | not executed | Carts.FixedRowMisses | Carts.FixedRowConnects |
| AdventOfCode/Sources/Day13/main.swift:208-219 | after a cart moves, only carts next to each other in the array are compared for a shared cell | the drawing `v>-` over `^  `: the first cart moves onto the third, which is not its array neighbour, and the first tick reports no collision | the moved cart is compared with every other cart | not executed | CartExamples.FirstCollisionMissed | CartExamples.FirstCollisionFixedFinds |
| AdventOfCode/Sources/Day13/main.swift:251-260 | a moved cart is marked when it shares a cell with any cart, including carts already marked as crashed in this tick | the drawing `>+<` over ` ^ `: the third cart reaches the crossing where the first two crashed, all three are removed, and the loop never ends | a cart meets only carts not yet crashed, so the third cart is left | not executed | CartExamples.LastCartNeverFinishes | CartExamples.LastCartFixedFinds |
