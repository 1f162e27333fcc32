# AoCUtil core, modelled in Dafny

AoCUtil is a Java toolkit of small, integer-only building blocks for puzzle solving. This project models its core as immutable Dafny datatypes and pure functions, and proves what each operation promises.

- **Sparse grid** (`CoordGrid`, `Window2D`): a map from coordinates to values, plus a default value and a bounding window. The model keeps a dynamic grid's window equal to the bounding box of the stored keys. It does so with a corrected resize; the Java resize can leave a larger window when no key reaches −1 on an axis (see Findings).
  - Grid operations: get, set, unset, update, count, neighbours, rotate, flip, extract, insert, insertColumns/insertRows, and the row parser.
  - These are split over the modules `CoordGrid`, `GridTransform` and `GridInsert`.
- **Breadth-first search** (`BreadthFirstSearch`): wave-by-wave exploration over a finite universe. Covers distances, reachability and all shortest paths.
- **Unique-key priority queue** (`UniquePriorityQueue`, `QElement`): decrease-key insert, remove, poll and size.
- **Geometry values**:
  - `Coord2D`, `CoordND`, `Coord3D`
  - `Cube3D` and `Square2D`, with overlap and subtraction
  - `Line2D`, `HexCoord`, `Direction`
- **Collections, strings, numbers**:
  - `Range`, `CollectionUtil` (permutations, subsets, combinations), `LabelMatrix`
  - `StringUtil`, and `RegexMatcher.toRegex`
  - `BitString`, `NumberUtil`, `BinarySearch`
- **Stateful pieces**: `Cache` (bounded map with pruning), `RegisterAssemblyMachine`, and `Graph` / `Node` / `Edge` / `Path`.
- **Small pieces**: `LabeledObject`, and the line grouping and number reading of `FileReader`, taken over lines already read.

Every Java object that changes state becomes a value: each operation returns the new state along with its result. Exceptions become the `Err` case of a `Result`, and Java `null` becomes `None`.

Some things the Java code gets from its environment become explicit parameters in the model:
- the wall clock of the cache, as `now`;
- the hash iteration orders;
- the abstract `execute` of the register machine;
- `Edge.isArc`.

Shared helpers:
- `Wrappers`: `Option`, `Result` and the Java exceptions.
- `Numeric`: Java's truncating `/` and `%`, and the int and long bounds.
- `Text`: Java's decimal printing and parsing, `String.split` on one character, `trim`, and `String.hashCode`.

## Model

| member | source | states |
|---|---|---|
| Window2D.BoundingBox | src/aocutil/geometry/Window2D.java:96-116 | the box the dynamic window is meant to equal: the least box holding every coordinate of a non-empty set, with each side touched by some coordinate |
| Window2D.BoundingBoxUnique | src/aocutil/geometry/Window2D.java:96-116 | a set has only one bounding box, and that box is ordered (min corner below max corner on both axes) |
| Window2D.NewDynamic | src/aocutil/geometry/Window2D.java:21-24 | the no-argument window is empty and dynamic |
| Window2D.NewBounds | src/aocutil/geometry/Window2D.java:47-52 | the four-bound window is fixed and reports exactly the given corners, not reordered |
| Window2D.NewSized | src/aocutil/geometry/Window2D.java:33-35 | the width/height window is fixed, holds exactly the cells 0 ≤ x < width, 0 ≤ y < height, and counts width·height cells |
| Window2D.Spanning | src/aocutil/geometry/Window2D.java:60-63 | the two-corner window is fixed, ordered, and is the bounding box of the two corners whichever order they come in |
| Window2D.Include | src/aocutil/geometry/Window2D.java:76-89 | a fixed window is untouched; a dynamic one afterwards contains the coordinate and still contains everything it contained before |
| Window2D.GrowBoundingBox | src/aocutil/geometry/Window2D.java:76-89 | including a coordinate in the bounding box of a key set yields the bounding box of the set with that coordinate added; this is the grid's window invariant under `set` |
| Window2D.ResizeAsWritten | src/aocutil/geometry/Window2D.java:96-116 | the resize as written: a fixed window is untouched, the window is empty iff the set is, and every coordinate of the set lies inside the result |
| Window2D.Resize | src/aocutil/geometry/Window2D.java:96-116 | the corrected resize: a fixed window is untouched, an empty set clears it, otherwise the window becomes the bounding box of the set |
| Window2D.ResizeAsWrittenAgrees | src/aocutil/geometry/Window2D.java:106-115 | the resize as written equals the corrected one exactly when the window is fixed, the set is empty, or the set has both an x ≥ −1 and a y ≥ −1 |
| Window2D.ResizeAsWrittenCounterexample | src/aocutil/geometry/Window2D.java:107 | for the single key (−3,−3) the resize as written reaches to (−1,−1) and contains it, while the bounding box is the single cell |
| Window2D.BoundingBoxRemoveInside | src/aocutil/grid/CoordGrid.java:198-203 | removing a key that is not on the border of the bounding box leaves the bounding box unchanged, which is why `unset` resizes only for border keys |
| Window2D.Clear | src/aocutil/geometry/Window2D.java:121-124 | the window becomes empty and keeps its fixed flag |
| Window2D.Contains | src/aocutil/geometry/Window2D.java:133-138 | fails iff the window is empty; otherwise true iff minX ≤ x ≤ maxX and minY ≤ y ≤ maxY |
| Window2D.OnBorder | src/aocutil/geometry/Window2D.java:146-151 | fails with RuntimeException exactly when the window is empty; otherwise true exactly when the coordinate's x equals the minimum or maximum x or its y the minimum or maximum y; a contained coordinate is off the border exactly when it lies strictly inside |
| Window2D.Size | src/aocutil/geometry/Window2D.java:168-171 | absent iff the window is empty; an ordered box is at least one cell wide and high |
| Window2D.Count | src/aocutil/geometry/Window2D.java:161-163 | fails with a null dereference iff the window is empty; otherwise (maxX−minX+1)·(maxY−minY+1), at least 1 for an ordered box |
| Window2D.MinCoord | src/aocutil/geometry/Window2D.java:174-177 | fails iff the window is empty, otherwise the minimum corner (also serving getMinX/getMinY, lines 186-195) |
| Window2D.MaxCoord | src/aocutil/geometry/Window2D.java:180-183 | fails iff the window is empty, otherwise the maximum corner (also serving getMaxX/getMaxY, lines 198-207) |
| Window2D.RowMajor | src/aocutil/geometry/Window2D.java:217-247 | the reference enumeration of a box: count() coordinates, exactly the box's cells, each once, strictly increasing in row-major order (x fastest) |
| Window2D.Iterate | src/aocutil/geometry/Window2D.java:217-247 | running the iterator of a window whose iterator stops yields nothing for an empty window, exactly the row-major enumeration for ordered corners, nothing for the zero-width box of new Window2D(0, 1), and in every case as many items as count() |
| Window2D.IterateBox | src/aocutil/geometry/Window2D.java:223-245 | the iterator's loop over an ordered box produces exactly the row-major enumeration, and over the box whose maximum corner is the starting point it produces nothing |
| Window2D.IterStepsUnordered | src/aocutil/geometry/Window2D.java:236-237 | on the crossed box from (0,0) to (−1,1), every call of next() after the first moves one row down in column 0 |
| Window2D.IterateUnorderedNeverEnds | src/aocutil/geometry/Window2D.java:33-35 | new Window2D(0, 2) spans (0,0) to (−1,1), whose corners are crossed, and its iterator never reaches the end corner, so hasNext() stays true forever |
| Window2D.IterateNeverEnds | src/aocutil/geometry/Window2D.java:226-245 | on every box that is neither ordered nor the zero-width box whose maximum corner is the starting point, no number of next() calls reaches the maximum corner, so the iterator never stops |
| Window2D.StepsPastColumn | src/aocutil/geometry/Window2D.java:236-237 | when the maximum column lies left of the minimum one, the k-th next() is k rows down in the minimum column |
| Window2D.StepsStayBelow | src/aocutil/geometry/Window2D.java:236-237 | next() never moves the iterator above the minimum corner's row |
| CoordGrid.NewGrid | src/aocutil/grid/CoordGrid.java:43-47 | a new grid stores nothing, has an empty dynamic window, and satisfies the window invariant |
| CoordGrid.NewSizedGrid | src/aocutil/grid/CoordGrid.java:56-60 | a sized grid stores nothing and has a fixed window holding exactly 0 ≤ x < width, 0 ≤ y < height |
| CoordGrid.GetOr | src/aocutil/grid/CoordGrid.java:188-190 | the stored value for a present key, otherwise the supplied fallback, whatever the window |
| CoordGrid.Get | src/aocutil/grid/CoordGrid.java:157-159 | the stored value for a present key, otherwise the grid's default; the window is not consulted |
| CoordGrid.PutKeepsValid | src/aocutil/grid/CoordGrid.java:131-135 | storing a key and including it in the window keeps the invariant that a dynamic window is the keys' bounding box |
| CoordGrid.Set | src/aocutil/grid/CoordGrid.java:131-135 | a null value fails with NullPointerException; otherwise the previous value (none if absent) is returned, the key now reads the new value, every other key reads and is present as before, a dynamic window contains the key, a fixed one is unchanged, and the invariant is kept |
| CoordGrid.Unset | src/aocutil/grid/CoordGrid.java:198-203 | returns the removed value (none if absent), removes exactly that key, leaves a fixed window alone and, with the corrected resize, keeps the dynamic window equal to the keys' bounding box |
| CoordGrid.UnsetKeepsValid | src/aocutil/grid/CoordGrid.java:198-203 | resizing only when the key is on the border of the window is enough to keep the window the bounding box of the remaining keys |
| CoordGrid.UnsetAll | src/aocutil/grid/CoordGrid.java:210-215 | removes exactly the listed keys, leaves a fixed window alone, and, with the corrected resize, re-establishes the invariant |
| CoordGrid.UnsetAsWritten | src/aocutil/grid/CoordGrid.java:198-203 | unset with the Java resize: the same removed value and cells as Unset, a fixed window untouched, and the window untouched unless the key lies on its border |
| CoordGrid.UnsetAsWrittenAgrees | src/aocutil/grid/CoordGrid.java:201 | unset as written gives the same grid as Unset exactly when no resize happens, the window is fixed, no key remains, or the remaining keys reach −1 on both axes |
| CoordGrid.UnsetAsWrittenCounterexample | src/aocutil/grid/CoordGrid.java:201 | keys (−3,−3) and (−5,−5) with their bounding box as window: unsetting (−5,−5) as written leaves the window (−3,−3)-(−1,−1), while the bounding box is the single cell (−3,−3) |
| CoordGrid.UnsetAllAsWritten | src/aocutil/grid/CoordGrid.java:210-215 | unsetAll with the Java resize: the same cells as UnsetAll, a fixed window untouched, and on a dynamic window every remaining key inside it |
| CoordGrid.UnsetAllAsWrittenAgrees | src/aocutil/grid/CoordGrid.java:214 | unsetAll as written gives the same grid as UnsetAll exactly when the window is fixed, no key remains, or the remaining keys reach −1 on both axes |
| CoordGrid.Update | src/aocutil/grid/CoordGrid.java:225-227 | the key reads f of what it read before (default included), the previous stored value is returned, other keys read as before, and the invariant is kept |
| CoordGrid.Find | src/aocutil/grid/CoordGrid.java:309-316 | exactly the stored keys whose value equals the searched one |
| CoordGrid.Count | src/aocutil/grid/CoordGrid.java:240-252 | fails on a null value, and when counting the default on an empty window; a value other than the default counts exactly its stored keys |
| CoordGrid.CountDefaultIsWindowCells | src/aocutil/grid/CoordGrid.java:240-252 | when every key lies in an ordered window, counting the default gives the number of window cells that read as the default |
| CoordGrid.CountIf | src/aocutil/grid/CoordGrid.java:262-266 | zero for an empty window and for the zero-width window of new CoordGrid(0, 1, d), and never more than the window's cell count |
| CoordGrid.CountIfZeroWidth | src/aocutil/grid/CoordGrid.java:262-266 | new CoordGrid(0, 1, d) has the window (0,0)-(−1,0), and countIf on it is 0 |
| CoordGrid.CountIfCells | src/aocutil/grid/CoordGrid.java:262-266 | on an ordered window, countIf counts each window cell satisfying the condition exactly once |
| CoordGrid.Contains | src/aocutil/grid/CoordGrid.java:328-330 | is the window's containment test, so it fails on an empty window |
| CoordGrid.GetRelative | src/aocutil/grid/CoordGrid.java:340-342 | fails on an empty window; otherwise the offset which, added to the window's minimum corner, gives the coordinate back |
| CoordGrid.Neighbours | src/aocutil/grid/CoordGrid.java:373-385 | fails unless the coordinate is in the window (IllegalArgumentException, or the window's own error when empty); otherwise a cell is in the result exactly when it is adjacent (diagonals as asked), lies in the window when the window is fixed, and is accepted by the predicate when one is given |
| CoordGrid.RowCells | src/aocutil/grid/CoordGrid.java:510 | without a separator each character is one cell (an empty row is one empty cell) |
| CoordGrid.FromStringList | src/aocutil/grid/CoordGrid.java:497-517 | the parsed grid has the given default, a dynamic window and satisfies the window invariant |
| CoordGrid.FromStringListCells | src/aocutil/grid/CoordGrid.java:505-514 | the parsed grid stores exactly the cells (column x, row y) whose mapped value differs from the default, each with its mapped value |
| CoordGrid.ParseRowsCells | src/aocutil/grid/CoordGrid.java:505-514 | the row loop from row y on adds exactly the non-default cells of those rows and keeps what was stored before |
| CoordGrid.FromBooleanGrid | src/aocutil/grid/CoordGrid.java:539-541 | a boolean grid with default false that satisfies the window invariant |
| CoordGrid.FromCharGrid | src/aocutil/grid/CoordGrid.java:550-552 | fails with StringIndexOutOfBoundsException exactly when some row is empty (its one empty cell has no first character); otherwise a grid with the given default and a dynamic window that satisfies the window invariant |
| CoordGrid.FromCharGridCells | src/aocutil/grid/CoordGrid.java:505-514 | a coordinate (x, y) is stored exactly when row y exists, has a character at x, and that character is not the default; the stored value is that character |
| CoordGrid.FromCharGridEmptyRow | src/aocutil/grid/CoordGrid.java:551 | the rows "#" and "" fail with the index error of charAt(0) on the empty row |
| CoordGrid.BooleanGridExampleCells | src/aocutil/grid/CoordGrid.java:497-517 | parsing "#.#", ".#.", "#.#" with '#' as true stores exactly the five '#' cells, at (column, row), all true |
| CoordGrid.BooleanGridExample | src/aocutil/grid/CoordGrid.java:240-252 | on that example count(true) is 5 and count(false) is 4 |
| GridTransform.Inverse | src/aocutil/grid/CoordGrid.java:394-426 | each coordinate change used by rotate, flip, extract and insert is a bijection of the plane with an explicit inverse |
| GridTransform.Remapped | src/aocutil/grid/CoordGrid.java:400-406 | moving every key of a map by a coordinate change keeps each value with its key |
| GridTransform.RemappedBack | src/aocutil/grid/CoordGrid.java:394-426 | moving the keys by a change and then by its inverse restores the map |
| GridTransform.CopyLoopBuilds | src/aocutil/grid/CoordGrid.java:400-406 | the set-per-key loop of rotate, flip and extract, started on an empty valid grid, builds the same grid whatever order the hash set yields the keys in |
| GridTransform.CopyEmpty | src/aocutil/grid/CoordGrid.java:623-631 | fails on an empty window; otherwise no values, the same default, a dynamic window starting empty, or the same fixed window when it is ordered |
| GridTransform.Extract | src/aocutil/grid/CoordGrid.java:656-672 | the extracted grid satisfies the window invariant, has the parent's default, and is fixed exactly when the parent is |
| GridTransform.ExtractKeeps | src/aocutil/grid/CoordGrid.java:664-669 | without re-keying, extract keeps exactly the entries inside the inclusive rectangle, with their values |
| GridTransform.ExtractRelative | src/aocutil/grid/CoordGrid.java:664-669 | with re-keying, the entry at c inside the rectangle is found at c − topleft with its value, and nothing else is stored |
| GridTransform.ExtractLoop | src/aocutil/grid/CoordGrid.java:656-672 | the source's extract loop, in any key order, builds exactly that grid |
| GridTransform.Copy | src/aocutil/grid/CoordGrid.java:614-617 | fails on an empty window; otherwise holds exactly the keys inside the window |
| GridTransform.CopyIsIdentity | src/aocutil/grid/CoordGrid.java:614-617 | copying a valid grid whose keys lie in its ordered window gives the same grid |
| GridTransform.RotateBy | src/aocutil/grid/CoordGrid.java:396-407 | fails exactly on an empty window; otherwise a valid grid with the same default, keeping the window kind for a real turn |
| GridTransform.RotateAsWritten | src/aocutil/grid/CoordGrid.java:394-408 | the rotate as written, with Java's truncating remainder: fails exactly on an empty window |
| GridTransform.Rotate | src/aocutil/grid/CoordGrid.java:394-408 | the corrected rotate, remainder in 0..3: fails exactly on an empty window (Runtime), otherwise a valid grid with the same default |
| GridTransform.RotateAsWrittenAgrees | src/aocutil/grid/CoordGrid.java:395 | for a non-negative count the rotate as written and the corrected one coincide |
| GridTransform.RotateAsWrittenCounterexample | src/aocutil/grid/CoordGrid.java:395-405 | on a 2×1 grid holding (0,0), rotate(−2) as written turns three quarters and stores at (0,1), while a half turn stores at (1,0) and not at (0,1) |
| GridTransform.RotateCells | src/aocutil/grid/CoordGrid.java:403-405 | for 1, 2, 3 rotations the result stores exactly the keys moved by (x,y)→(h−1−y,x), (w−1−x,h−1−y), (y,w−1−x) respectively, with (w,h) the window size |
| GridTransform.RotateMoves | src/aocutil/grid/CoordGrid.java:400-406 | rotating moves the value at each key to its turned position, and a cell is stored iff it comes from a stored key |
| GridTransform.Flip | src/aocutil/grid/CoordGrid.java:416-426 | fails exactly on an empty window; otherwise a valid grid with the same default |
| GridTransform.FlipCells | src/aocutil/grid/CoordGrid.java:421-422 | the flipped grid stores exactly the keys mirrored by x→w−1−x (horizontal) or y→h−1−y (vertical) |
| GridTransform.FlipMoves | src/aocutil/grid/CoordGrid.java:418-424 | flipping moves the value at each key to its mirror image, and a cell is stored iff its mirror is |
| GridTransform.TurnLoop | src/aocutil/grid/CoordGrid.java:400-406 | the source's rotate and flip loops, in any key order, build exactly those grids |
| GridTransform.QuarterTurnSize | src/aocutil/grid/CoordGrid.java:403 | a quarter turn of a valid dynamic grid with values swaps its width and height |
| GridTransform.RotateQuarterBack | src/aocutil/grid/CoordGrid.java:394-408 | on a valid dynamic grid with values, rotate(1) followed by rotate(3) gives the grid back |
| GridTransform.HalfTurnSize | src/aocutil/grid/CoordGrid.java:404 | a half turn keeps the size of a valid grid with an ordered window, and a fixed window stays the same |
| GridTransform.RotateHalfTwice | src/aocutil/grid/CoordGrid.java:394-408 | two half turns give the grid back, fixed or dynamic |
| GridTransform.MirrorSize | src/aocutil/grid/CoordGrid.java:416-426 | a flip keeps the size of a valid grid with an ordered window, and a fixed window stays the same |
| GridTransform.FlipTwice | src/aocutil/grid/CoordGrid.java:416-426 | flipping twice the same way gives the grid back |
| GridInsert.PasteLoop | src/aocutil/grid/CoordGrid.java:687-693 | the paste loop keeps the target's default, window kind and fixed window, and, with the corrected resize for its unset steps, the window invariant |
| GridInsert.Insert | src/aocutil/grid/CoordGrid.java:687-693 | insert keeps the target's default and window kind, and keeps it valid under the corrected resize for its unset steps; pasting a grid with an empty window, or with the zero-width window whose iterator yields nothing, changes nothing |
| GridInsert.InsertIsLoop | src/aocutil/grid/CoordGrid.java:687-693 | the source's loop over what the pasted window's iterator yields builds that grid: the same cells as Java, and the window of the corrected resize |
| GridInsert.InsertAt | src/aocutil/grid/CoordGrid.java:687-693 | each cell c of the pasted window lands at its relative position plus the offset, present iff the pasted grid has a value at c and then with that value; every cell outside the pasted footprint is as before |
| GridInsert.ToMove | src/aocutil/grid/CoordGrid.java:703-704 | the keys that move are exactly those at or beyond the index along the axis |
| GridInsert.ShiftLoop | src/aocutil/grid/CoordGrid.java:706 | the unset-then-set loop fails only by setting a missing value, and otherwise keeps the default, the window kind and the invariant |
| GridInsert.ShiftLoopMoves | src/aocutil/grid/CoordGrid.java:706 | in a safe order (no key visited after the key moved onto it) the loop succeeds and moves every listed key with its value |
| GridInsert.InsertColumns | src/aocutil/grid/CoordGrid.java:702-707 | the intended insertColumns: a valid grid with the same default and window kind |
| GridInsert.InsertRows | src/aocutil/grid/CoordGrid.java:716-721 | the intended insertRows: a valid grid with the same default and window kind |
| GridInsert.InsertLinesAt | src/aocutil/grid/CoordGrid.java:702-721 | for a non-negative size, keys before the index keep place and value, keys from the index on are found size further along with their value, and the size lines from the index on are left empty |
| GridInsert.InsertLinesAsWritten | src/aocutil/grid/CoordGrid.java:702-721 | the source's loop over the keys to move in a given hash order: on success it keeps the default, the window kind and the invariant |
| GridInsert.InsertColumnsAsWritten | src/aocutil/grid/CoordGrid.java:702-707 | insertColumns as written, over a given order of the keys to move; on success default and window kind are kept |
| GridInsert.InsertRowsAsWritten | src/aocutil/grid/CoordGrid.java:716-721 | insertRows as written, over a given order of the keys to move; on success default and window kind are kept |
| GridInsert.SafeOrderAgrees | src/aocutil/grid/CoordGrid.java:702-721 | in a safe order the source's loop builds exactly the intended grid |
| GridInsert.DescendingIsSafe | src/aocutil/grid/CoordGrid.java:706 | visiting the keys furthest along the axis first is safe for a non-negative size |
| GridInsert.InsertColumnsDescending | src/aocutil/grid/CoordGrid.java:702-707 | insertColumns over the keys in decreasing x moves every key as documented |
| GridInsert.InsertRowsDescending | src/aocutil/grid/CoordGrid.java:716-721 | insertRows over the keys in decreasing y moves every key as documented |
| GridInsert.InsertColumnsAscendingLoses | src/aocutil/grid/CoordGrid.java:706 | on a row holding 1 at (2,0) and 2 at (3,0), opening one column at 2 in the hash order (2,0), (3,0) leaves only 1 at (4,0), while the intended result holds 1 at (3,0) and 2 at (4,0) |
| BreadthFirstSearch.DistIsShortestWalk | src/aocutil/algorithm/BreadthFirstSearch.java:81-105 | the BFS level used as the reference distance: a value is at level d exactly when a walk of d steps reaches it and none of fewer steps does |
| BreadthFirstSearch.ReachableIsWalk | src/aocutil/algorithm/BreadthFirstSearch.java:123-145 | a value is reachable exactly when some walk of successors leads to it |
| BreadthFirstSearch.Waves | src/aocutil/algorithm/BreadthFirstSearch.java:81-111 | the wave loop of getDistances fails only when findall is set, and then with RuntimeException |
| BreadthFirstSearch.GetDistances | src/aocutil/algorithm/BreadthFirstSearch.java:66-112 | getDistances on a collection without duplicates, given as its set of targets: fails only when findall is set, with RuntimeException |
| BreadthFirstSearch.WaveStep | src/aocutil/algorithm/BreadthFirstSearch.java:85-104 | one wave pops exactly the unvisited values of the current level and pushes their successors |
| BreadthFirstSearch.Advance | src/aocutil/algorithm/BreadthFirstSearch.java:88-89 | a wave that does not return marks its values visited, so each value is expanded at most once and the unvisited part of the universe shrinks |
| BreadthFirstSearch.WavesExit | src/aocutil/algorithm/BreadthFirstSearch.java:92-95 | returning as soon as the last target gets its distance gives a correct result: every target is mapped to its BFS level |
| BreadthFirstSearch.WavesEnd | src/aocutil/algorithm/BreadthFirstSearch.java:107-111 | when the frontier empties, every reachable value has been visited, so some target is unreachable (or there are none): failure with findall, the partial map otherwise |
| BreadthFirstSearch.GetDistancesCorrect | src/aocutil/algorithm/BreadthFirstSearch.java:66-112 | for a collection without duplicates: every key of the result is a target mapped to its BFS level, every reachable target is a key, and the search fails exactly when findall is set and some target is unreachable or there are no targets |
| BreadthFirstSearch.WavesCounted | src/aocutil/algorithm/BreadthFirstSearch.java:81-111 | the wave loop with the early return of line 94, which compares the number of distinct targets stored with the size of the collection: fails only under findall, with RuntimeException |
| BreadthFirstSearch.GetDistancesOf | src/aocutil/algorithm/BreadthFirstSearch.java:66-112 | getDistances on the target collection itself, duplicates included: fails only under findall, with RuntimeException |
| BreadthFirstSearch.CountedDistinct | src/aocutil/algorithm/BreadthFirstSearch.java:94 | when the collection has no duplicates, comparing the count with its size is testing that every target is stored, so the loop is the set-based one |
| BreadthFirstSearch.AllFound | src/aocutil/algorithm/BreadthFirstSearch.java:81-104 | once every target is stored and visited, the remaining waves store nothing and the result is the map found so far |
| BreadthFirstSearch.CountedNeverExits | src/aocutil/algorithm/BreadthFirstSearch.java:94-111 | with more entries than distinct targets the early return never fires: the search fails under findall and otherwise returns what the set-based search returns |
| BreadthFirstSearch.GetDistancesOfCorrect | src/aocutil/algorithm/BreadthFirstSearch.java:66-112 | every key of the result is a target of the collection mapped to its BFS level, every reachable target is a key, and the search fails exactly when findall is set and the collection repeats a target, is empty, or holds an unreachable target |
| BreadthFirstSearch.DuplicateTargetsFail | src/aocutil/algorithm/BreadthFirstSearch.java:94 | a collection naming the start twice fails under findall even though the target is found at once |
| BreadthFirstSearch.InitialTargetZero | src/aocutil/algorithm/BreadthFirstSearch.java:75-78 | an initial value that is a target gets distance 0 |
| BreadthFirstSearch.GetDistanceCorrect | src/aocutil/algorithm/BreadthFirstSearch.java:31-36 | getDistance succeeds exactly for a reachable target, with its BFS level, and otherwise fails with RuntimeException |
| BreadthFirstSearch.GetReachableCorrect | src/aocutil/algorithm/BreadthFirstSearch.java:123-145 | getReachable maps exactly the reachable values, each to its BFS level, and the start to 0 |
| BreadthFirstSearch.PathWavePushed | src/aocutil/algorithm/BreadthFirstSearch.java:196-207 | a path a wave pushes extends an unvisited path by one successor other than the target |
| BreadthFirstSearch.PathWavePushesAll | src/aocutil/algorithm/BreadthFirstSearch.java:196-207 | a wave pushes every extension of an unvisited path by a successor other than the target |
| BreadthFirstSearch.PathWaveReported | src/aocutil/algorithm/BreadthFirstSearch.java:200-203 | a path a wave reports ends in the target, one step after an unvisited path |
| BreadthFirstSearch.PathWaveReportsAll | src/aocutil/algorithm/BreadthFirstSearch.java:200-203 | a wave reports every unvisited path that has the target as a successor, extended by it |
| BreadthFirstSearch.WaveVisits | src/aocutil/algorithm/BreadthFirstSearch.java:181-216 | because visited is merged only at the end of a wave, the values a wave expands are exactly those first reached at its level |
| BreadthFirstSearch.PathsCorrect | src/aocutil/algorithm/BreadthFirstSearch.java:181-218 | from any wave on, the path search returns exactly the shortest routes, or fails exactly when there is no route |
| BreadthFirstSearch.GetShortestPaths | src/aocutil/algorithm/BreadthFirstSearch.java:172-219 | a successful result is never empty; failure is a RuntimeException |
| BreadthFirstSearch.GetShortestPathsCorrect | src/aocutil/algorithm/BreadthFirstSearch.java:172-219 | every returned path is a shortest route of at least one step from start to target following the successor function, every shortest route is returned, all have the same length, and the search fails exactly when no route exists |
| BreadthFirstSearch.GetShortestPathCorrect | src/aocutil/algorithm/BreadthFirstSearch.java:157-160 | getShortestPath returns a shortest route, and fails exactly when the target is reachable from none of the start's successors |
| BreadthFirstSearch.ShortestCycle | src/aocutil/algorithm/BreadthFirstSearch.java:203 | searching from a value to itself yields a cycle of at least one step back to it, never the one-element path |
| UniquePriorityQueue.Empty | src/aocutil/upqueue/UniquePriorityQueue.java:28-31 | the new queue satisfies the queue invariant (chain ordered by value, one node per key, chain and value map agree) and has size 0 |
| UniquePriorityQueue.PlaceAt | src/aocutil/upqueue/UniquePriorityQueue.java:63-77 | the insertion loop stops at the first node whose key's current value is at least the new value (so ties go in front), or at the end; it fails with a null dereference only when some node's key has no value |
| UniquePriorityQueue.Enqueue | src/aocutil/upqueue/UniquePriorityQueue.java:58-82 | linking a new node records the key's new value and lengthens the chain by one |
| UniquePriorityQueue.EnqueuePlaces | src/aocutil/upqueue/UniquePriorityQueue.java:63-82 | on a valid queue without the key, the new node goes right before the first node whose value is at least its own, every node in front having a smaller value |
| UniquePriorityQueue.EnqueueValid | src/aocutil/upqueue/UniquePriorityQueue.java:58-82 | linking a node for an absent key into a valid queue keeps the invariant and records the value |
| UniquePriorityQueue.RemoveAsWritten | src/aocutil/upqueue/UniquePriorityQueue.java:90-104 | remove as written: fails on an empty chain, takes the key out of the value map, and leaves the chain exactly as it was, since a node never equals a key |
| UniquePriorityQueue.InsertAsWritten | src/aocutil/upqueue/UniquePriorityQueue.java:41-83 | insert as written: on success the key is queued with a value no larger than the inserted one |
| UniquePriorityQueue.Remove | src/aocutil/upqueue/UniquePriorityQueue.java:90-104 | the intended remove: fails on an empty chain; otherwise the key leaves the value map and no node of the key remains |
| UniquePriorityQueue.RemoveValid | src/aocutil/upqueue/UniquePriorityQueue.java:90-104 | the intended remove keeps a valid non-empty queue valid and drops exactly the key from the value map |
| UniquePriorityQueue.RemoveCorrect | src/aocutil/upqueue/UniquePriorityQueue.java:90-104 | on a valid non-empty queue the key leaves both the map and the chain, the rest stays, and the size drops by one exactly when the key was queued |
| UniquePriorityQueue.Insert | src/aocutil/upqueue/UniquePriorityQueue.java:41-83 | insert with the intended remove: on success the key is queued with a value no larger than the inserted one |
| UniquePriorityQueue.InsertCorrect | src/aocutil/upqueue/UniquePriorityQueue.java:33-127 | insert is decrease-key: on a valid queue it succeeds and keeps the invariant, an absent key is added with its value, a present key keeps a value that is not larger and otherwise takes the new one, and the size grows by one exactly when the key was absent |
| UniquePriorityQueue.InsertPlaces | src/aocutil/upqueue/UniquePriorityQueue.java:49-82 | a key already queued with a value not larger leaves the queue unchanged; otherwise the new node goes into the chain without the key's old node, before the first node whose value is at least the new one, which keeps the chain non-decreasing |
| UniquePriorityQueue.Poll | src/aocutil/upqueue/UniquePriorityQueue.java:112-120 | fails when the value map or the chain is empty (NoSuchElementException when the map is); otherwise returns the head and the chain behind it, with the head's key out of the map |
| UniquePriorityQueue.PollCorrect | src/aocutil/upqueue/UniquePriorityQueue.java:112-120 | on a valid queue poll fails exactly when the size is 0, and otherwise returns a queued entry of least value and leaves a valid queue without its key, one smaller |
| UniquePriorityQueue.SizeIsLength | src/aocutil/upqueue/UniquePriorityQueue.java:125-127 | in a valid queue the size (the value map's key count) equals the length of the chain |
| UniquePriorityQueue.LowerAsWritten | src/aocutil/upqueue/UniquePriorityQueue.java:94 | with the code as written, lowering key 1 from 5 to 1 in the queue 1=5, 2=7 leaves the stale node 1=5 in the chain |
| UniquePriorityQueue.StalePollAsWritten | src/aocutil/upqueue/UniquePriorityQueue.java:112-120 | the stale node is handed out: after 1=1 is polled the second poll returns 1=5 although only key 2 is queued |
| UniquePriorityQueue.LowerIntended | src/aocutil/upqueue/UniquePriorityQueue.java:90-104 | with the intended remove the same lowering unlinks 1=5, and the polls return 1=1 and then 2=7 |
| UniquePriorityQueue.ElementString | src/aocutil/collections/upqueue/QElement.java:38-40 | a node prints as its key's text followed by '=' and then the value |
| UniquePriorityQueue.ElementStringParts | src/aocutil/collections/upqueue/QElement.java:38-40 | a node's text splits at '=' into the key's text and the value's, and the value parses back, when the key prints as non-empty text without '=' |
| UniquePriorityQueue.ElementStrings | src/aocutil/upqueue/UniquePriorityQueue.java:136-140 | one text per node of the chain, in chain order |
| UniquePriorityQueue.QueueStringParts | src/aocutil/upqueue/UniquePriorityQueue.java:133-142 | the text of a non-empty queue splits at commas into the nodes' texts in chain order, when no key prints with a comma |
| Coord2D.DiffMoveInverse | src/aocutil/geometry/Coord2D.java:44-103 | diff(c) is c − this: moving by a difference reaches the other point, the difference of a move is the move, swapping the points negates it, and diffAbs is its symmetric componentwise absolute value |
| Coord2D.CMax | src/aocutil/geometry/Coord2D.java:111-113 | componentwise maximum: each axis is at least both inputs' and equals one of them |
| Coord2D.CMin | src/aocutil/geometry/Coord2D.java:121-123 | componentwise minimum: each axis is at most both inputs' and equals one of them |
| Coord2D.MoveDir | src/aocutil/geometry/Coord2D.java:55-65 | succeeds exactly when direction % 360 (Java remainder) is 0, 90, 180 or 270, failing with IllegalArgumentException otherwise; the move covers Manhattan distance abs(distance), and x stays put exactly for north/south (or a zero distance) |
| Coord2D.MoveDirIsTurnedNorth | src/aocutil/geometry/Coord2D.java:55-83 | every compass move is the northward step (0, −distance) rotated clockwise by the move's angle, so 90 moves x by +distance, 180 moves y by +distance, 270 moves x by −distance |
| Coord2D.MoveDirReturns | src/aocutil/geometry/Coord2D.java:55-65 | moving by an angle and then by the opposite angle returns to the start |
| Coord2D.Rotate | src/aocutil/geometry/Coord2D.java:73-83 | succeeds exactly when (degrees + 360) % 360 is a compass angle, failing with IllegalArgumentException otherwise; a rotation about the origin keeps the distance to the origin |
| Coord2D.RotateFourTimes | src/aocutil/geometry/Coord2D.java:73-83 | four 90° rotations give the point back, and 90° followed by 270° is the identity |
| Coord2D.RotateNegative | src/aocutil/geometry/Coord2D.java:75 | −90° is the same as 270°, and −360° is the identity |
| Coord2D.ManhattanMetric | src/aocutil/geometry/Coord2D.java:131-133 | the Manhattan distance is symmetric, zero exactly for equal coordinates, and obeys the triangle inequality |
| Coord2D.Adjacent | src/aocutil/geometry/Coord2D.java:141-160 | 4 or 8 distinct neighbours, each differing from the coordinate and at most one away per axis, the first four being exactly the ones at Manhattan distance 1 |
| Coord2D.AdjacentComplete | src/aocutil/geometry/Coord2D.java:141-160 | every cell at most one away per axis is listed: the orthogonal ones always, the diagonal ones when requested |
| CoordND.Filled | src/aocutil/geometry/CoordND.java:31-38 | a coordinate of the given dimension with every value equal to the fill value; a negative dimension fails with NegativeArraySizeException |
| CoordND.Reduce | src/aocutil/geometry/CoordND.java:58-60 | folding the values fails with NoSuchElementException exactly for the zero-dimensional coordinate, and gives the single value of a one-dimensional one |
| CoordND.ReduceAdds | src/aocutil/geometry/CoordND.java:58-60 | reducing by addition gives the sum of the values |
| CoordND.Map | src/aocutil/geometry/CoordND.java:68-74 | same dimension, each value replaced by its image |
| CoordND.MapCompose | src/aocutil/geometry/CoordND.java:68-74 | mapping by f and then g is mapping by their composition |
| CoordND.Combine | src/aocutil/geometry/CoordND.java:87-95 | fails with IllegalArgumentException exactly when the dimensions differ; otherwise each value is the operator applied to the two values at that position |
| CoordND.CMinIsMeet | src/aocutil/geometry/CoordND.java:104-106 | the componentwise minimum is defined exactly for equal dimensions, lies below both inputs, takes each value from one of them, and is symmetric |
| CoordND.Move | src/aocutil/geometry/CoordND.java:117-123 | fails with IllegalArgumentException exactly when the delta has the wrong length |
| CoordND.MoveBack | src/aocutil/geometry/CoordND.java:117-123 | moving by a delta and then by its negation returns to the start |
| CoordND.DiffMoves | src/aocutil/geometry/CoordND.java:132-134 | the plain difference this − coord is the delta that moves coord onto this, and the absolute difference is symmetric |
| CoordND.DiffOppositeSigns | src/aocutil/geometry/CoordND.java:132-134 | on two dimensions the N-dimensional difference is the negation of Coord2D's, whose diff subtracts the other way round |
| CoordND.Manhattan | src/aocutil/geometry/CoordND.java:144-148 | fails with IllegalArgumentException for different dimensions and with NoSuchElementException for no dimensions; otherwise non-negative |
| CoordND.ManhattanIsSum | src/aocutil/geometry/CoordND.java:144-148 | the distance is the sum of the absolute differences per axis |
| CoordND.ManhattanMetric | src/aocutil/geometry/CoordND.java:144-148 | the distance is symmetric, zero exactly for equal coordinates, and obeys the triangle inequality |
| CoordND.Equals | src/aocutil/geometry/CoordND.java:198-209 | the dimension check and the value-by-value loop agree with equality of the coordinates, and null is never equal |
| CoordND.ToString | src/aocutil/geometry/CoordND.java:163-172 | the text is parenthesised, "()" for no dimensions |
| CoordND.ToStringReadsBack | src/aocutil/geometry/CoordND.java:163-172 | splitting the text inside the parentheses at commas gives one piece per value, each parsing back to that value |
| Coord3D.ToND | src/aocutil/geometry/Coord3D.java:22-27 | a 3D coordinate is an N-dimensional one with exactly three values |
| Coord3D.FromND | src/aocutil/geometry/Coord3D.java:46-48 | the 3D point built from the first three values of an N-dimensional one |
| Coord3D.FromArray | src/aocutil/geometry/Coord3D.java:34-39 | succeeds exactly for three values, which become x, y and z; fewer than three fail with ArrayIndexOutOfBoundsException; more than three are refused with IllegalArgumentException |
| Coord3D.LongerArrayKeepsAll | src/aocutil/geometry/CoordND.java:45-49 | a longer array keeps all its values: the three-delta move and the diff against a 3D point throw IllegalArgumentException, and the point equals no 3D point |
| Coord3D.ToFromND | src/aocutil/geometry/Coord3D.java:22-48 | converting to N dimensions and back, by fromND or by the array constructor, gives the point back |
| Coord3D.Move | src/aocutil/geometry/Coord3D.java:58-60 | moving through the N-dimensional move adds the deltas to x, y and z |
| Coord3D.Add | src/aocutil/geometry/Coord3D.java:68-70 | adding a coordinate adds it per axis |
| Coord3D.Diff | src/aocutil/geometry/Coord3D.java:106-108 | the difference through the N-dimensional diff is this − coord per axis, or its absolute value on request |
| Coord3D.Negate | src/aocutil/geometry/Coord3D.java:115-117 | the negation is the additive inverse |
| Coord3D.NegateInvolution | src/aocutil/geometry/Coord3D.java:68-117 | negating twice is the identity; the difference is adding the negation and adding it back undoes it; the absolute difference is symmetric |
| Cube3D.Make | src/aocutil/geometry/Cube3D.java:33-36 | the constructor always yields ordered corners, and keeps the given ones when each axis pair is already ordered |
| Cube3D.MakeSymmetric | src/aocutil/geometry/Cube3D.java:33-36 | the two values of an axis may come in either order: the same cuboid, holding the points between the smaller and the larger value on every axis |
| Cube3D.Around | src/aocutil/geometry/Cube3D.java:26-28 | the radius constructor holds exactly the points at most abs(radius) from the origin on every axis |
| Cube3D.OverlapsMeansSharedPoint | src/aocutil/geometry/Cube3D.java:56-62 | overlaps is symmetric and holds exactly when some point lies in both cuboids |
| Cube3D.GetOverlap | src/aocutil/geometry/Cube3D.java:71-82 | null exactly without overlap; otherwise the per-axis intersection, holding exactly the points in both cuboids |
| Cube3D.SubtractInside | src/aocutil/geometry/Cube3D.java:94-121 | every point of every piece of subtract lies in this cuboid and not in the subtracted one |
| Cube3D.SubtractCovers | src/aocutil/geometry/Cube3D.java:94-121 | every point of this cuboid outside the subtracted one lies in some piece |
| Cube3D.SubtractDisjoint | src/aocutil/geometry/Cube3D.java:94-121 | the pieces are pairwise distinct and share no point, so the result set has no collapsed duplicates |
| Cube3D.Size | src/aocutil/geometry/Cube3D.java:126-128 | each extent is at least one exactly for an ordered cuboid, and min corner + size is one past the max corner on every axis |
| Cube3D.Volume | src/aocutil/geometry/Cube3D.java:131-134 | an ordered cuboid has a positive volume |
| Cube3D.OverlapVolume | src/aocutil/geometry/Cube3D.java:71-134 | the overlap's volume is the product of the shared extents of the three axes |
| Cube3D.SubtractVolume | src/aocutil/geometry/Cube3D.java:94-134 | the pieces' volumes add up to this cuboid's volume minus the overlap's, or to the whole volume when there is no overlap |
| Cube3D.EqualsAsWritten | src/aocutil/geometry/Cube3D.java:190-195 | as written, equal exactly when the other object is present and has the same minimum corner, because the maximum corner is compared with itself |
| Cube3D.EqualsAsWrittenCounterexample | src/aocutil/geometry/Cube3D.java:194 | [0,1]³ and [0,2]³ are different cuboids that the as-written equals calls equal |
| Cube3D.Equals | src/aocutil/geometry/Cube3D.java:190-195 | equal exactly to a cuboid with the same two corners, and never to null; whatever this calls equal, the as-written one does too |
| Square2D.Make | src/aocutil/geometry/Square2D.java:24-27 | the constructor always yields ordered corners, and keeps the given ones when they are already ordered |
| Square2D.Area | src/aocutil/geometry/Square2D.java:43-46 | for ordered corners, width times height counting both borders |
| Square2D.AreaCountsPoints | src/aocutil/geometry/Square2D.java:43-46 | the area is the number of points of the rectangle, at least one |
| Square2D.Contains | src/aocutil/geometry/Square2D.java:55-58 | a 3D coordinate is contained exactly when its x and y lie in the rectangle; z is ignored |
| Square2D.OverlapsMeansSharedPoint | src/aocutil/geometry/Square2D.java:66-71 | overlaps is symmetric and holds exactly when some point lies in both rectangles |
| Square2D.GetOverlapAsWritten | src/aocutil/geometry/Square2D.java:80-89 | as written, null exactly without overlap |
| Square2D.GetOverlapAsWrittenCounterexample | src/aocutil/geometry/Square2D.java:85-88 | the as-written overlap of a rectangle with itself contains (50, 50), a point the rectangle does not |
| Square2D.GetOverlap | src/aocutil/geometry/Square2D.java:80-89 | null exactly without overlap; otherwise a rectangle holding exactly the points in both |
| Square2D.SubtractAsWrittenCounterexample | src/aocutil/geometry/Square2D.java:99-120 | as written, removing x in [5, 20] from x in [0, 10] (same y span) leaves the single column x = 0, y in [4, 10], so the uncovered point (1, 0) is lost |
| Square2D.SubtractAgreesWhenDisjoint | src/aocutil/geometry/Square2D.java:102-106 | for disjoint rectangles both readings of subtract return just this rectangle |
| Square2D.SubtractInside | src/aocutil/geometry/Square2D.java:99-120 | every point of every piece of the corrected subtract lies in this rectangle and not in the subtracted one |
| Square2D.SubtractCovers | src/aocutil/geometry/Square2D.java:99-120 | every point of this rectangle outside the subtracted one lies in some piece |
| Square2D.SubtractDisjoint | src/aocutil/geometry/Square2D.java:99-120 | the pieces are pairwise distinct and share no point |
| Square2D.OverlapArea | src/aocutil/geometry/Square2D.java:43-89 | the overlap's area is the product of the shared extents of the two axes |
| Square2D.SubtractArea | src/aocutil/geometry/Square2D.java:43-120 | the pieces' areas add up to this rectangle's area minus the overlap's, or to the whole area when there is no overlap |
| Square2D.Iterate | src/aocutil/geometry/Square2D.java:157-181 | the iterator yields the rectangle's points in row-major order from the top-left corner, each exactly once, area() of them |
| Square2D.Equals | src/aocutil/geometry/Square2D.java:130-134 | equal exactly to a rectangle with the same corners, and never to null |
| Line2D.Inc | src/aocutil/geometry/Line2D.java:70-71 | the per-axis increment is 0 or plus or minus the step |
| Line2D.WholeStepsQuotient | src/aocutil/geometry/Line2D.java:78-80 | the number of whole steps an axis takes is the quotient of its distance by the step |
| Line2D.AxisClosed | src/aocutil/geometry/Line2D.java:78-80 | after i iterations an axis has moved by its increment min(i, its step count) times, then stays put |
| Line2D.AxisRemaining | src/aocutil/geometry/Line2D.java:78-80 | an axis is still at least one step from B exactly while it has steps left, and never leaves the span between A and B |
| Line2D.GetPoints | src/aocutil/geometry/Line2D.java:62-87 | the walk starts at A, has one point more than the larger step count of the two axes, follows the closed form point by point, and stops less than one step from B on both axes |
| Line2D.Walk | src/aocutil/geometry/Line2D.java:74-86 | the while loop: the points are the closed-form positions, as many as the loop runs plus one, ending within one step of B |
| Line2D.StepAxes | src/aocutil/geometry/Line2D.java:79-80 | one loop iteration moves each axis to its next closed-form position, and the loop test afterwards holds exactly while steps remain |
| Line2D.PointSteps | src/aocutil/geometry/Line2D.java:79-80 | each step moves each axis by its increment or not at all, and the walk stays in the box spanned by A and B |
| Line2D.GetPointsUnit | src/aocutil/geometry/Line2D.java:34-36 | with step 1 the walk runs from A to B and has max(abs(Bx − Ax), abs(By − Ay)) + 1 points |
| Line2D.GetPointsStep | src/aocutil/geometry/Line2D.java:48-50 | with one step size for both axes the walk starts at A and stops less than one step from B |
| Line2D.OvershootExample | src/aocutil/geometry/Line2D.java:78 | walking from (0, 0) to (3, 0) in steps of 2 stops at (2, 0): B is not on the walk |
| Line2D.HorizontalWalk | src/aocutil/geometry/Line2D.java:92-101 | isHorizontal exactly when every point of the unit walk stays on A's row, and isVertical exactly when every point stays on A's column |
| HexCoord.XInc | src/aocutil/geometry/HexCoord.java:75-82 | the column change of a direction is −1, 0 or +1 |
| HexCoord.YInc | src/aocutil/geometry/HexCoord.java:87-93 | the row change of a direction is −1 or +1 |
| HexCoord.Opposite | src/aocutil/geometry/HexCoord.java:71-93 | each direction has an opposite with both increments negated |
| HexCoord.Move | src/aocutil/geometry/HexCoord.java:30-40 | the column changes by the direction's x increment; N and S change the row by their y increment; a diagonal move keeps the row or changes it by the y increment |
| HexCoord.DiagonalRow | src/aocutil/geometry/HexCoord.java:37 | a diagonal move changes the row exactly when the column parity calls for it: northward from odd columns, southward from even ones |
| HexCoord.MoveBack | src/aocutil/geometry/HexCoord.java:30-40 | moving one way and then the opposite way returns to the cell |
| HexCoord.Dist | src/aocutil/geometry/HexCoord.java:48-58 | the walked distance lies between the larger axis distance and the sum of the two axis distances |
| HexCoord.DistNeighbours | src/aocutil/geometry/HexCoord.java:48-58 | a cell is at distance 0 from itself and at distance 1 from each of its six neighbours |
| Direction.Ordinal | src/aocutil/geometry/Direction.java:8 | the ordinal is below four and indexes the direction in values() |
| Direction.Rotation | src/aocutil/geometry/Direction.java:11-13 | the rotation is 90 times the ordinal, a compass angle |
| Direction.RotationMovesThatWay | src/aocutil/geometry/Direction.java:11-13 | moving one step by a direction's rotation goes north, east, south or west as the name says |
| Direction.FromLetter | src/aocutil/geometry/Direction.java:21-26 | succeeds exactly when some direction's initial equals the upper-cased letter, and returns that direction; fails with IllegalArgumentException otherwise |
| Direction.FindInitial | src/aocutil/geometry/Direction.java:22-25 | the loop over the directions returns one whose initial matches, or fails when none does |
| Direction.FromLetterRoundTrip | src/aocutil/geometry/Direction.java:21-26 | each initial, upper or lower case, gives its direction back, and the accepted letters are exactly N, E, S, W in either case plus the long s, which upper-cases to S |
| Direction.Turn | src/aocutil/geometry/Direction.java:34-36 | the result's ordinal is (ordinal + r) % 4 with Java's remainder, and it fails with ArrayIndexOutOfBoundsException exactly when that remainder is negative |
| Direction.TurnRotates | src/aocutil/geometry/Direction.java:11-36 | turning by r ≥ 0 adds 90·r degrees to the rotation, modulo 360 |
| Direction.TurnFour | src/aocutil/geometry/Direction.java:34-36 | turn(4) and four turn(1)s are the identity; turn(−4) works only from North |
| Direction.TurnCompose | src/aocutil/geometry/Direction.java:34-36 | non-negative turns compose by adding the amounts |
| Direction.TurnNegativeFails | src/aocutil/geometry/Direction.java:35 | North turned by −1 is out of bounds, while West turned by −1 is South |
| Range.Contains | src/aocutil/collections/Range.java:30-32 | a number is contained exactly when it is one of the values between min and max |
| Range.ContainsRangeIsSubset | src/aocutil/collections/Range.java:41-43 | for a non-empty r2, containing it is the same as containing every value it spans |
| Range.OverlapsMeansSharedValue | src/aocutil/collections/Range.java:52-54 | overlaps is symmetric, and for non-empty ranges holds exactly when they share a value |
| Range.Combine | src/aocutil/collections/Range.java:64-66 | the bounds reach at least as far as both ranges' and each is one of the given bounds |
| Range.CombineIsHull | src/aocutil/collections/Range.java:64-66 | the combined range contains both ranges and is contained by any range that contains both: the smallest such range |
| Range.Size | src/aocutil/collections/Range.java:69-71 | the size is at least one, even for a reversed range |
| Range.SizeCountsValues | src/aocutil/collections/Range.java:69-71 | for a well-formed range the size is the number of values it spans |
| Range.Compare | src/aocutil/collections/Range.java:81-83 | the comparison is −1, 0 or 1 and orders by min alone |
| Range.CompareOrders | src/aocutil/collections/Range.java:81-83 | the comparison is antisymmetric and transitive, and ranges with the same min compare equal whatever their max |
| CollectionUtil.Fact | src/aocutil/collections/CollectionUtil.java:27-31 | the factorial, the count of permutations, is at least one |
| CollectionUtil.NoDupCard | src/aocutil/collections/CollectionUtil.java:40-47 | a duplicate-free list has as many distinct elements as entries |
| CollectionUtil.PermuteMembers | src/aocutil/collections/CollectionUtil.java:58-75 | the recursion from a partial stack yields exactly the permutations that extend the stack |
| CollectionUtil.PermuteCount | src/aocutil/collections/CollectionUtil.java:58-75 | the recursion from a partial stack yields (n − depth)! lists |
| CollectionUtil.PermuteNoDup | src/aocutil/collections/CollectionUtil.java:58-75 | the recursion never yields the same list twice |
| CollectionUtil.GeneratePermutations | src/aocutil/collections/CollectionUtil.java:27-31 | for n distinct items, n! distinct lists, which are exactly the permutations of the items |
| CollectionUtil.GeneratePermutationsOfArray | src/aocutil/collections/CollectionUtil.java:40-47 | repeated array elements collapse first: k! distinct lists for k distinct elements, exactly the duplicate-free lists of length k over the array's elements |
| CollectionUtil.SubSetsMembers | src/aocutil/collections/CollectionUtil.java:139-153 | the include/exclude recursion from index j yields exactly the accepted sets between the current stack and the stack plus the items from j on |
| CollectionUtil.SubSetsCount | src/aocutil/collections/CollectionUtil.java:139-153 | without a validator the recursion from index j yields 2^(n − j) sets |
| CollectionUtil.SubSetsNoDup | src/aocutil/collections/CollectionUtil.java:139-153 | the recursion never yields the same set twice |
| CollectionUtil.GenerateSubSets | src/aocutil/collections/CollectionUtil.java:109-126 | exactly the subsets of the items the validator accepts (all of them without one), each once, 2^n of them without a validator |
| CollectionUtil.CombineMembers | src/aocutil/collections/CollectionUtil.java:199-223 | the recursion from a prefix yields exactly the accepted lists extending the prefix that take their k-th element from the k-th input |
| CollectionUtil.CombineCount | src/aocutil/collections/CollectionUtil.java:199-223 | without a validator the recursion from a prefix yields the product of the remaining input sizes |
| CollectionUtil.GenerateCombinations | src/aocutil/collections/CollectionUtil.java:163-223 | exactly the accepted lists with one element per input set, the k-th from the k-th set; without a validator as many as the product of the set sizes |
| CollectionUtil.CombineSets | src/aocutil/collections/CollectionUtil.java:236-242 | the set of f(a, b) for every a in the first set and b in the second |
| CollectionUtil.ProductAddRow | src/aocutil/collections/CollectionUtil.java:238-240 | one more element in the first set adds its row of combinations to the product |
| CollectionUtil.FoldedMembers | src/aocutil/collections/CollectionUtil.java:94-97 | the stack fold of combineSets holds exactly the folds of one choice per set |
| CollectionUtil.GenerateSetCombinations | src/aocutil/collections/CollectionUtil.java:86-100 | empty for no sets, the set itself for one, and otherwise exactly the values obtained by choosing one element per set and folding them from the last set to the first |
| CollectionUtil.FilterKeys | src/aocutil/collections/CollectionUtil.java:252-258 | exactly the keys whose value is non-null and passes the filter |
| LabelMatrix.GetOr | src/aocutil/collections/LabelMatrix.java:66-70 | the stored value when the cell has one, the default otherwise |
| LabelMatrix.Get | src/aocutil/collections/LabelMatrix.java:51-55 | fails with NoSuchElementException exactly when the cell has no value, and otherwise returns it |
| LabelMatrix.Lookup | src/aocutil/collections/LabelMatrix.java:37 | the lookup with a null default: null exactly when get would fail, the value get returns otherwise |
| LabelMatrix.Set | src/aocutil/collections/LabelMatrix.java:36-41 | returns the previous value (null when there was none), and afterwards get reads the new value |
| LabelMatrix.SetLeavesOthers | src/aocutil/collections/LabelMatrix.java:36-41 | setting a cell leaves every other cell as it was |
| LabelMatrix.GetOrAgrees | src/aocutil/collections/LabelMatrix.java:51-70 | the defaulting get returns what get returns, and the default where get fails |
| LabelMatrix.GetRow | src/aocutil/collections/LabelMatrix.java:79-81 | the row holds exactly the columns with a value in that row, an empty map for an unknown row, each with the value get returns |
| StringUtil.RepeatedAdds | src/aocutil/string/StringUtil.java:35-40 | repeating a times and then b times is repeating a + b times |
| StringUtil.RepeatedAt | src/aocutil/string/StringUtil.java:35-40 | position i of the repeated string holds character i modulo the string's length |
| StringUtil.FillIsRepeated | src/aocutil/string/StringUtil.java:21-40 | repeating a character is repeating the one-character string |
| StringUtil.FillIsConstant | src/aocutil/string/StringUtil.java:21-26 | n copies of the character, nothing else |
| StringUtil.RepeatChar | src/aocutil/string/StringUtil.java:21-26 | fails with IllegalArgumentException exactly for a negative count; otherwise n copies of the character |
| StringUtil.RepeatString | src/aocutil/string/StringUtil.java:35-40 | fails with IllegalArgumentException exactly for a negative count; otherwise n times the string's length, character i being character i modulo the string's length |
| StringUtil.RunsSpellString | src/aocutil/string/StringUtil.java:66-79 | the runs of equal characters spell the input again, and no two neighbouring runs share a character |
| StringUtil.RunsExample | src/aocutil/string/StringUtil.java:66-79 | "aaabcc" has the runs a×3, b×1, c×2 |
| StringUtil.Flush | src/aocutil/string/StringUtil.java:72 | a run is reported as its repeated character exactly when its length lies in [minlength, maxlength] |
| StringUtil.GetRepeatingSequences | src/aocutil/string/StringUtil.java:61-81 | nothing for an input shorter than minlength; a failing charAt(0) for an empty input otherwise; else the runs whose length lies in [minlength, maxlength], in order, after the empty string the scan's start reports when zero is an allowed length |
| StringUtil.ScanRuns | src/aocutil/string/StringUtil.java:66-79 | the scanning loop reports exactly the kept runs of the input, in order |
| StringUtil.GetRepeatingSequencesFrom | src/aocutil/string/StringUtil.java:49-51 | the two-argument form allows every run length up to the input's length |
| StringUtil.RepeatingSequencesExample | src/aocutil/string/StringUtil.java:61-81 | with lengths 2 to 6, "aaabcc" reports "aaa" and "cc" |
| StringUtil.FromArray | src/aocutil/string/StringUtil.java:122-140 | the text is empty exactly for an empty array |
| StringUtil.ParseAll | src/aocutil/string/StringUtil.java:89-101 | every field parses to the value at its position, or the whole parse fails with NumberFormatException |
| StringUtil.ToIntArray | src/aocutil/string/StringUtil.java:99-101 | every parsed value is a Java int |
| StringUtil.ToLongArray | src/aocutil/string/StringUtil.java:89-91 | every parsed value is a Java long |
| StringUtil.IntArrayRoundTrip | src/aocutil/string/StringUtil.java:99-139 | parsing the comma-separated text of a non-empty int array gives the array back; the empty array's empty text does not parse |
| StringUtil.Reverse | src/aocutil/string/StringUtil.java:210-212 | same length, the i-th character from the end at position i |
| StringUtil.ReverseInvolution | src/aocutil/string/StringUtil.java:210-212 | reversing twice gives the string back |
| StringUtil.KeepIfCounts | src/aocutil/string/StringUtil.java:221-249 | keeping the characters of s by membership in other keeps each such character with its multiplicity and drops the rest |
| StringUtil.KeepIfConcat | src/aocutil/string/StringUtil.java:223-225 | the filter works left to right: filtering s followed by t is filtering s followed by filtering t |
| StringUtil.KeepIfOne | src/aocutil/string/StringUtil.java:224-225 | one character is kept exactly when its containment in the other string matches the test |
| StringUtil.Union | src/aocutil/string/StringUtil.java:221-228 | the characters of s1 that occur in s2, each as often as in s1 and none of the others |
| StringUtil.UnionAppend | src/aocutil/string/StringUtil.java:223-225 | the union is built in the order of s1: one more character of s1 is appended exactly when it occurs in s2 |
| StringUtil.Diff | src/aocutil/string/StringUtil.java:242-250 | the characters of s1 not in s2, plus, both ways, those of s2 not in s1, each as often as in the string it comes from |
| StringUtil.DiffAppend | src/aocutil/string/StringUtil.java:244-245 | the one-way difference is built in the order of s1: one more character of s1 is appended exactly when s2 lacks it |
| StringUtil.DiffBothways | src/aocutil/string/StringUtil.java:242-249 | the two-way difference is the difference of s1 from s2 followed by that of s2 from s1 |
| StringUtil.UnionDiffSplit | src/aocutil/string/StringUtil.java:221-261 | union(s1, s2) and diff(s1, s2) split the characters of s1 between them |
| StringUtil.ContainsAll | src/aocutil/string/StringUtil.java:271-276 | true exactly when every character of check occurs in input |
| StringUtil.Count | src/aocutil/string/StringUtil.java:311-316 | the number of occurrences of the character |
| StringUtil.InsertSorts | src/aocutil/string/StringUtil.java:284-288 | inserting a character into a sorted string keeps it sorted and adds exactly that character |
| StringUtil.SortSorts | src/aocutil/string/StringUtil.java:284-288 | the sorted string is sorted and a permutation of the input |
| StringUtil.SortedUnique | src/aocutil/string/StringUtil.java:284-288 | two sorted strings with the same characters are equal, so the sort result is determined by the characters alone |
| StringUtil.AnagramMeansSameCharacters | src/aocutil/string/StringUtil.java:298-302 | two strings are anagrams exactly when they hold the same characters with the same multiplicities |
| StringUtil.PadLeft | src/aocutil/string/StringUtil.java:339-341 | max(len, length) characters, the string at the end, the pad character before it |
| StringUtil.PadLeftSpaces | src/aocutil/string/StringUtil.java:326-328 | padding with spaces by default |
| RegexMatcher.ReplaceAll | src/aocutil/string/RegexMatcher.java:246-247 | the rewrite only introduces characters of the replacement, and keeps a non-empty text non-empty |
| RegexMatcher.ReplaceAbsent | src/aocutil/string/RegexMatcher.java:246-247 | replacing a pattern that does not occur leaves the text as it is |
| RegexMatcher.ReplaceClears | src/aocutil/string/RegexMatcher.java:247 | after replacing every "#D" by a group free of '#' no "#D" remains |
| RegexMatcher.ToRegex | src/aocutil/string/RegexMatcher.java:244-249 | the translated pattern holds no "#D" shorthand |
| RegexMatcher.ToRegexUnchanged | src/aocutil/string/RegexMatcher.java:244-249 | a pattern is returned unchanged exactly when it uses no shorthand |
| RegexMatcher.ToRegexIdempotent | src/aocutil/string/RegexMatcher.java:244-249 | translating twice is translating once |
| RegexMatcher.SpacedShorthandFirst | src/aocutil/string/RegexMatcher.java:246 | "#Ds" becomes the white-space tolerant number group as a whole, not "#D" followed by s |
| BitString.LowBits | src/aocutil/BitString.java:128-130 | masking with 2^n − 1 keeps exactly the bits below n |
| BitString.ComplementBits | src/aocutil/BitString.java:128-130 | Java's ~ flips every bit |
| BitString.New | src/aocutil/BitString.java:29-33 | n bits, all clear |
| BitString.Get | src/aocutil/BitString.java:85-89 | fails with IndexOutOfBoundsException exactly outside [0, length); otherwise the bit at that index |
| BitString.Set | src/aocutil/BitString.java:66-75 | fails with IndexOutOfBoundsException exactly outside [0, length); otherwise keeps the length and returns the previous bit |
| BitString.SetOne | src/aocutil/BitString.java:53-55 | set(i) fails exactly outside [0, length), returns the previous bit, and leaves the bit one |
| BitString.Clear | src/aocutil/BitString.java:99-101 | clear(i) fails exactly outside [0, length), returns the previous bit, and leaves the bit zero |
| BitString.SetThenGet | src/aocutil/BitString.java:66-75 | after set(i, v), get(i) is v and every other bit reads as before |
| BitString.ClearTruncates | src/aocutil/BitString.java:71-72 | clearing a bit also drops every bit at or above the length |
| BitString.Negate | src/aocutil/BitString.java:107-110 | the negation keeps the length and fits in it |
| BitString.NegateFlips | src/aocutil/BitString.java:107-130 | negate flips exactly the bits below the length |
| BitString.NegateTwice | src/aocutil/BitString.java:107-130 | negating twice restores every bit, and restores the value exactly when it had no bits outside the length |
| BitString.LengthMaskAsWritten | src/aocutil/BitString.java:31 | the length mask as Java computes it has bits 0 to length − 1 up to length 62, and from length 63 on only bits 1 to 62, because the cast of 2^63 to long saturates |
| BitString.MaskAsWritten | src/aocutil/BitString.java:128-130 | ANDing with the mask as written keeps exactly those bits of the value that the mask has |
| BitString.SetAsWritten | src/aocutil/BitString.java:66-75 | with the mask as written, set(i, v) fails with IndexOutOfBoundsException exactly outside [0, length), otherwise keeps the length and returns the previous bit |
| BitString.NegateAsWritten | src/aocutil/BitString.java:107-130 | with the mask as written, negate keeps the length and sets exactly the clear bits of the value that the mask has |
| BitString.AsWrittenAgrees | src/aocutil/BitString.java:31 | up to length 62 set, clear and negate with the mask as written equal BitString.Set and BitString.Negate |
| BitString.LengthSixtyThreeDropsBitZero | src/aocutil/BitString.java:31 | at length 63 every clear(i) and negate() leave bit 0 clear, whereas the intended mask 2^63 − 1 keeps bit 0 as it was |
| BitString.ClearAsWrittenCounterexample | src/aocutil/BitString.java:99-101 | fromLong(1, 63).clear(5) leaves the value 0 as written, and 1 with the intended mask |
| BitString.Bits | src/aocutil/BitString.java:163-190 | the iterator and the stream yield length bits, lowest index first, each as get reads it |
| BitString.Render | src/aocutil/BitString.java:266-271 | n characters, the highest bit first |
| BitString.ToString | src/aocutil/BitString.java:266-271 | length characters, the bit at the highest index first |
| BitString.BinaryValue | src/aocutil/BitString.java:245 | a string of n binary digits denotes a number below 2^n |
| BitString.ParseBinary | src/aocutil/BitString.java:245 | Long.valueOf(s, 2) gives a Java long or fails with NumberFormatException, and reads up to 62 binary digits as their value |
| BitString.FromString | src/aocutil/BitString.java:243-247 | fails exactly when the text does not parse; otherwise the parsed value with the text's length |
| BitString.RenderValue | src/aocutil/BitString.java:266-271 | the text of a value is binary and denotes its low n bits |
| BitString.FromStringOfToString | src/aocutil/BitString.java:243-271 | reading back the text of a bit string of length 1 to 62 gives it back |
| BitString.ToStringOfFromString | src/aocutil/BitString.java:243-271 | a non-empty string of at most 62 binary digits parses, and printing the result gives the string back |
| BitString.FromLong | src/aocutil/BitString.java:216-220 | the result has the requested number of bits |
| BitString.FromLongKeepsValue | src/aocutil/BitString.java:216-220 | the value is stored unmasked, and each bit below the length reads as that bit of the value |
| BitString.ToInt | src/aocutil/BitString.java:230-232 | the cast yields a Java int congruent to the value modulo 2^32 |
| BitString.ToIntOfInt | src/aocutil/BitString.java:230-232 | a value that fits in an int is returned unchanged |
| BinarySearch.HalfInside | src/aocutil/algorithm/BinarySearch.java:24 | for 0 ≤ min < max the truncated midpoint lies in [min, max) |
| BinarySearch.FindFirst | src/aocutil/algorithm/BinarySearch.java:22-29 | the result lies in [min, max] and is min when they are equal; for a monotone test it is the least value that passes, or max when none does |
| BinarySearch.NegativeBoundsStall | src/aocutil/algorithm/BinarySearch.java:24-26 | on [−1, 0] the midpoint truncates to 0, so a passing test leaves the range unchanged |
| NumberUtil.ToDigits | src/aocutil/number/NumberUtil.java:26-30 | one entry per character, each the character's code minus the code of '0': the digit's value for a decimal digit, −3 for a minus sign |
| NumberUtil.ToDigitsOfLong | src/aocutil/number/NumberUtil.java:16-18 | one entry per character of the decimal text |
| NumberUtil.HornerOfDigits | src/aocutil/number/NumberUtil.java:26-30 | valuing the digits of a string of decimal digits in base ten gives the number the string denotes |
| NumberUtil.Accumulate | src/aocutil/number/NumberUtil.java:67-72 | the loop yields the base-ten value of the digits from offset up to the bound, 0 for an empty span, and fails on a negative offset it would read |
| NumberUtil.FromDigitsAsWritten | src/aocutil/number/NumberUtil.java:66-73 | as written, the value of the digits from offset up to the requested end or one short of the array's end, whichever comes first; 0 when that span is empty; ArrayIndexOutOfBoundsException when a negative offset would be read |
| NumberUtil.FromDigits | src/aocutil/number/NumberUtil.java:50-73 | the value of the digits from offset up to the requested end or the array's end, 0 for an empty span, failing on a negative offset |
| NumberUtil.FromAllDigits | src/aocutil/number/NumberUtil.java:38-40 | with the corrected bound, fromDigits(array) is the base-ten value of all the digits |
| NumberUtil.DigitsRoundTrip | src/aocutil/number/NumberUtil.java:16-73 | with the corrected bound, fromDigits(toDigits(n)) is n for every n ≥ 0 |
| NumberUtil.FromDigitsDropsLast | src/aocutil/number/NumberUtil.java:68 | as written, the digits of 123 come back as 12; corrected, as 123 |
| NumberUtil.Gcd | src/aocutil/number/NumberUtil.java:109-112 | Euclid's result is non-zero unless both inputs are zero, and non-negative for non-negative inputs |
| NumberUtil.EuclidStep | src/aocutil/number/NumberUtil.java:111 | one step of Euclid with Java's remainder keeps the set of common divisors |
| NumberUtil.GcdDivides | src/aocutil/number/NumberUtil.java:109-112 | Euclid's result divides both inputs, and every common divisor of the inputs divides it |
| NumberUtil.GreatestCommonDivisor | src/aocutil/number/NumberUtil.java:97-99 | non-zero unless both inputs are zero, and non-negative for non-negative inputs |
| NumberUtil.GreatestCommonDivisorIsGreatest | src/aocutil/number/NumberUtil.java:97-112 | for a, b ≥ 0 the result divides both and is divisible by every common divisor |
| NumberUtil.GreatestCommonDivisorOfZero | src/aocutil/number/NumberUtil.java:97-112 | with a zero argument the result is the other argument |
| NumberUtil.LowestCommonMultiplier | src/aocutil/number/NumberUtil.java:85 | two zeros give 0 |
| NumberUtil.LowestCommonMultiplierIsCommon | src/aocutil/number/NumberUtil.java:83-88 | for a, b ≥ 0 the result is a non-negative common multiple of both |
| NumberUtil.LowestCommonMultiplierIsLeast | src/aocutil/number/NumberUtil.java:76-88 | for a, b ≥ 0 the result is the lowest common multiple: it divides every common multiple of a and b |
| NumberUtil.GcdScale | src/aocutil/number/NumberUtil.java:109-112 | Euclid's algorithm on naturals commutes with scaling: gcd(k·a, k·b) = k·gcd(a, b) for k > 0 |
| Cache.New | src/aocutil/cache/Cache.java:64-70 | a negative capacity is rejected with IllegalArgument (as HashMap's constructor does); otherwise the cache is empty, valid, and keeps the given size bound, prune size and strategy |
| Cache.Hit | src/aocutil/cache/Cache.java:188-191 | a hit keeps the key and value, adds one to the hit count and records the time of the hit |
| Cache.Reset | src/aocutil/cache/Cache.java:194-197 | a reset keeps the key and value and sets both the hit count and the last-hit time to 0 |
| Cache.Get | src/aocutil/cache/Cache.java:97-101 | a missing key fails with a null dereference and only then; a present key yields its value, records one hit on its entry at the given time, and leaves every other entry, the settings and validity as they were |
| Cache.SortDescending | src/aocutil/cache/Cache.java:124-137 | the sorted list is a permutation of the entries, ordered from best to worst score: hits for LeastHits and LeastHitsRecently, last-hit time for Oldest |
| Cache.Trim | src/aocutil/cache/Cache.java:140-142 | trimming removes exactly the keys of the sorted entries past the prune size and keeps every other entry unchanged |
| Cache.Prune | src/aocutil/cache/Cache.java:119-146 | the pruned cache is valid and keeps exactly min(entries, prunesize) entries, dropping nothing when it was already that small; the survivors keep their entries (reset under LeastHitsRecently), and every survivor scores at least as well as every dropped entry |
| Cache.Set | src/aocutil/cache/Cache.java:110-113 | after set the key holds a fresh entry (no hits) with the value; the size stays within the larger of maxsize - 1 and prunesize + 1; without a prune the keys are the old keys plus this one and the other entries are unchanged |
| Cache.SetThenGet | src/aocutil/cache/Cache.java:97-113 | a value just stored is found and read back, with exactly one hit recorded at the time of the read |
| Cache.SetKeepsOthers | src/aocutil/cache/Cache.java:97-113 | storing under one key without a prune changes neither whether nor what another key reads |
| LabeledObject.New | src/aocutil/object/LabeledObject.java:22-26 | a null or empty label is rejected with IllegalArgument, and any other label is kept as the object's label |
| LabeledObject.EqualsIsIdentity | src/aocutil/object/LabeledObject.java:35-38 | two labelled objects are equal exactly when their labels are equal, equality is symmetric, and nothing equals null |
| LabeledObject.HashCodeConsistent | src/aocutil/object/LabeledObject.java:42-44 | equal labelled objects have equal hash codes |
| LabeledObject.NewPrintsLabel | src/aocutil/object/LabeledObject.java:22-51 | an object made from a non-empty label prints as that label and hashes as the label's string hash |
| FileReader.Emit | src/aocutil/io/FileReader.java:98 | a finished group is emitted exactly when it is not empty, so no empty group is ever returned |
| FileReader.ReadLineGroups | src/aocutil/io/FileReader.java:87-106 | the scanning loop computes exactly the reference grouping: the blank-line separated blocks, each line trimmed and followed by the separator, empty groups dropped |
| FileReader.ScanGroups | src/aocutil/io/FileReader.java:93-103 | scanning the lines with the appended blank line gives the reference grouping |
| FileReader.BlankLineSeparates | src/aocutil/io/FileReader.java:96-100 | a blank line splits the input: the groups of a, blank, b are the groups of a followed by the groups of b |
| FileReader.NoLinesNoGroups | src/aocutil/io/FileReader.java:87-106 | an empty file has no groups |
| FileReader.TrailingBlank | src/aocutil/io/FileReader.java:93 | a trailing blank line changes nothing, which is why the extra blank line at the end is harmless |
| FileReader.LeadingBlank | src/aocutil/io/FileReader.java:96-100 | a leading blank line changes nothing |
| FileReader.DoubleBlank | src/aocutil/io/FileReader.java:98 | two blank lines in a row separate groups like one, since empty groups are not added |
| FileReader.LastGroupEmitted | src/aocutil/io/FileReader.java:93-103 | a run of non-blank lines with no blank line after it still forms exactly one group, unless it joins to the empty string |
| FileReader.WhitespaceLineAddsSeparator | src/aocutil/io/FileReader.java:96-102 | a line of only whitespace is not blank: it trims to nothing but still contributes the separator, so on its own it forms the group holding just the separator |
| FileReader.ReadIntArray | src/aocutil/io/FileReader.java:38-49 | the comma-separated fields of all lines are read in order; the read succeeds exactly when every field parses as an int, and otherwise fails with NumberFormat |
| FileReader.FieldsFail | src/aocutil/io/FileReader.java:44-45 | one line with a field that is not an int makes the whole read fail |
| FileReader.ReadPrintedArrays | src/aocutil/io/FileReader.java:38-49 | lines printed as comma-separated int rows read back as all the rows' values in order |
| FileReader.ReadLongArray | src/aocutil/io/FileReader.java:57-66 | one long per line: the read succeeds exactly when every line parses as a long, with one value per line in order, and otherwise fails with NumberFormat |
| Graph.Empty | src/aocutil/graph/Graph.java:29-32 | a new graph is well formed and has no nodes |
| Graph.GetNode | src/aocutil/graph/Graph.java:54-56 | a lookup finds a node exactly when the label is in the graph, and then returns that node |
| Graph.AddNode | src/aocutil/graph/Graph.java:40-46 | addNode returns the existing node for a known label and a fresh edgeless node otherwise, leaves the edges alone, and the label is then in the graph |
| Graph.AddNodeKeepsWf | src/aocutil/graph/Graph.java:40-46 | adding a node keeps the graph well formed, adds exactly that label, grows the size by at most one, and changes nothing for a known label |
| Graph.AddNodeIdempotent | src/aocutil/graph/Graph.java:40-46 | adding the same node twice is the same as adding it once, and afterwards the graph contains exactly the old labels and the new one |
| Graph.AddEdge | src/aocutil/graph/Graph.java:94-104 | addEdge reports true exactly when the edge is new; a known edge changes nothing; a new one is appended to the edge list and registered on the nodes at both of its ends |
| Graph.AddEdgeKeepsWf | src/aocutil/graph/Graph.java:94-104 | adding an edge between two nodes of a well formed graph keeps it well formed: each node's edges are exactly the listed edges at it |
| Graph.AddEdgeIdempotent | src/aocutil/graph/Graph.java:94-95 | adding an edge a second time reports false and changes nothing |
| Graph.NeighbourEdges | src/aocutil/graph/Graph.java:94-104 | in a well formed graph a node's neighbours are exactly the nodes one step away along the graph's edges, and all of them are in the graph |
| Graph.PredecessorEdges | src/aocutil/graph/Graph.java:94-104 | in a well formed graph a node's predecessors are exactly the nodes one step before it along the graph's edges, and all of them are in the graph |
| Graph.NeighbourPredecessorDual | src/aocutil/graph/Graph.java:94-104 | b is a neighbour of a exactly when a is a predecessor of b, and without arcs the neighbour relation is symmetric |
| Graph.GetRoot | src/aocutil/graph/Graph.java:113-130 | getRoot returns null exactly for an empty graph; a returned root is a node of the graph without predecessors; the cycle error is raised only when a walk against the edges repeats a node |
| Graph.Explore | src/aocutil/graph/Graph.java:148-159 | the inner loop of getCliques collects exactly the nodes reachable from the start node by neighbour steps |
| Graph.CliqueSets | src/aocutil/graph/Graph.java:139-170 | the outer loop of getCliques splits the graph's nodes into neighbour-closed, pairwise disjoint sets that cover every node, each generated by one node |
| Graph.CopyEdgesAsWritten | src/aocutil/graph/Graph.java:161-165 | the edge-copy loop as written leaves the subgraph's node objects as they were |
| Graph.CopyEdges | src/aocutil/graph/Graph.java:161-165 | the corrected edge-copy loop keeps the subgraph's labels |
| Graph.CopyEdgesAsWrittenLists | src/aocutil/graph/Graph.java:162-165 | the loop as written lists exactly the original edges with both ends inside the subgraph, in their original order |
| Graph.CopyEdgesLists | src/aocutil/graph/Graph.java:162-165 | the corrected loop lists exactly the original edges with both ends inside the subgraph, in their original order |
| Graph.CopyEdgesWf | src/aocutil/graph/Graph.java:162-165 | the corrected loop keeps the subgraph well formed |
| Graph.SubGraphAsWritten | src/aocutil/graph/Graph.java:150-165 | the subgraph built as written has the clique's labels, but every one of its nodes has no edges |
| Graph.SubGraphEdges | src/aocutil/graph/Graph.java:150-165 | both versions of the subgraph list the original edges inside the clique, and the corrected one is well formed |
| Graph.SubGraphKeepsNodes | src/aocutil/graph/Graph.java:150-165 | for a neighbour-closed set in an undirected graph, the corrected subgraph's nodes carry the same edges as in the original graph |
| Graph.GetCliquesAsWritten | src/aocutil/graph/Graph.java:139-173 | getCliques as written returns subgraphs that partition the nodes and hold the edges inside each part, but whose nodes have no edges registered |
| Graph.GetCliques | src/aocutil/graph/Graph.java:139-173 | the corrected getCliques returns subgraphs that partition the nodes into neighbour-closed cliques, each holding the edges inside it, with every edge registered on its end nodes |
| Graph.CliquesAsWrittenLoseEdges | src/aocutil/graph/Graph.java:161-165 | on the two-node graph a - b, node a has neighbour b, but in the subgraph built as written it has none and the subgraph is not well formed, while the corrected subgraph keeps a's edge |
| NodeEdge.GetOther | src/aocutil/graph/Edge.java:41-46 | getOther returns the other end, checking `to` first, and fails exactly for a node that is on neither end |
| NodeEdge.GetOtherTwice | src/aocutil/graph/Edge.java:41-46 | going to the other end twice returns to the start |
| NodeEdge.GetNodesAreEnds | src/aocutil/graph/Edge.java:49 | getNodes lists from then to, which are exactly the nodes getOther accepts |
| NodeEdge.EdgeEqualsIsIdentity | src/aocutil/graph/Edge.java:69-74 | edges are equal exactly when their ends and weight are, so an edge and its reverse differ |
| NodeEdge.NodeString | src/aocutil/graph/Node.java:36-38 | a node prints as its label in parentheses |
| NodeEdge.EdgeString | src/aocutil/graph/Edge.java:57-61 | an edge prints as its from node, a dash (with the weight in parentheses and a second dash when it is positive), then its to node |
| NodeEdge.EdgeHashConsistent | src/aocutil/graph/Edge.java:79-82 | equal edges hash alike |
| NodeEdge.NonPositiveWeightsPrintAlike | src/aocutil/graph/Edge.java:57-82 | edges that differ only in a weight of 0 or below print and hash alike although they are not equal |
| NodeEdge.NodeEqualsByLabel | src/aocutil/graph/Node.java:101-106 | nodes are equal exactly when their labels are, whatever their edges, and equal nodes hash alike |
| NodeEdge.AddEdge | src/aocutil/graph/Node.java:54-62 | registering an edge reports true exactly when it is new, and afterwards the node holds it |
| NodeEdge.Neighbours | src/aocutil/graph/Node.java:72-80 | getNeighbours fails exactly when an undirected edge on the node does not touch it; otherwise it returns exactly the nodes one step away: forward along an arc, either way along an edge |
| NodeEdge.Predecessors | src/aocutil/graph/Node.java:85-93 | getPredecessors fails exactly when an undirected edge on the node does not touch it; otherwise it returns exactly the nodes one step before it |
| GraphPath.GetEnd | src/aocutil/graph/Path.java:37-39 | the end of a path is its last node and is on it, and an empty path has no end |
| GraphPath.New | src/aocutil/graph/Path.java:20-23 | a new path holds just its start node, which is also its end |
| GraphPath.Extend | src/aocutil/graph/Path.java:47-49 | extend gives a path one node longer that starts with the old path, ends at the new node and contains exactly the old nodes and the new one |
| GraphPath.ExtendAllAppends | src/aocutil/graph/Path.java:28-49 | extending by nodes one at a time appends them in order |
| GraphPath.WalkEnds | src/aocutil/graph/Path.java:20-59 | a walk built from a start by extends starts with the start, ends at the last added node, and contains exactly the start and the added nodes |
| RegisterMachine.New | src/aocutil/assembly/RegisterAssemblyMachine.java:34-40 | a machine needs a non-empty label (IllegalArgument otherwise) and starts Idle with IP -1 and no registers |
| RegisterMachine.Load | src/aocutil/assembly/RegisterAssemblyMachine.java:58-67 | load fails exactly when the machine is not Idle or the program is empty; otherwise the machine holds the program and is Yielded at instruction 0 |
| RegisterMachine.Steps | src/aocutil/assembly/RegisterAssemblyMachine.java:77-88 | the fetch loop keeps the label and program and stops Yielded or Ended, and a machine it ends has its IP off the program |
| RegisterMachine.Resume | src/aocutil/assembly/RegisterAssemblyMachine.java:72-89 | resume fails exactly when the machine is not Yielded; otherwise the machine ends up Yielded, or Ended with its IP off the program |
| RegisterMachine.Run | src/aocutil/assembly/RegisterAssemblyMachine.java:47-50 | run fails exactly when load does, and otherwise runs the given program on the same machine until it yields or ends |
| RegisterMachine.Read | src/aocutil/assembly/RegisterAssemblyMachine.java:105-112 | a number that parses as a long reads as itself; any other name reads the value stored in its register, or 0 when it was never written |
| RegisterMachine.Write | src/aocutil/assembly/RegisterAssemblyMachine.java:139-141 | write adds the register to the written ones and changes nothing else about the machine |
| RegisterMachine.Jump | src/aocutil/assembly/RegisterAssemblyMachine.java:119-121 | jump changes only the IP, moving it by offset - 1 when that fits in an int |
| RegisterMachine.JumpIf | src/aocutil/assembly/RegisterAssemblyMachine.java:129-131 | jumpIf jumps when the condition holds and otherwise changes nothing |
| RegisterMachine.WriteThenRead | src/aocutil/assembly/RegisterAssemblyMachine.java:105-141 | a written register reads back the written value, and every other register reads as before |
| RegisterMachine.ReadLiteral | src/aocutil/assembly/RegisterAssemblyMachine.java:105-109 | a printed long reads as itself whatever the registers hold |
| RegisterMachine.JumpLandsAtOffset | src/aocutil/assembly/RegisterAssemblyMachine.java:77-121 | since IP already points past the instruction while it executes, jump(o) by the instruction at i makes the machine fetch the instruction at i + o next |
| RegisterMachine.StraightLineEnds | src/aocutil/assembly/RegisterAssemblyMachine.java:77-88 | with an instruction set that neither jumps nor yields, and enough fuel, the loop ends the machine with IP just past the last instruction |
| RegisterMachine.RunStraightLine | src/aocutil/assembly/RegisterAssemblyMachine.java:34-88 | a fresh machine running a non-empty program under such an instruction set ends with IP just past the last instruction |
| Graph.AsWrittenUnregistered | src/aocutil/graph/Graph.java:161-165 | every subgraph getCliques builds as written has nodes with no edges registered, because the copied edges are registered on the original graph's nodes |
| Graph.CorrectedRegistered | src/aocutil/graph/Graph.java:161-165 | once the copied edges are registered on the subgraph's own nodes, each clique node holds exactly the copied edges at it |

## Left out

- `FileReader.readLines` and all of `FileWriter`: file I/O. `readLineGroups`, `readIntArray` and `readLongArray` take the lines as a sequence.
- `Util` (MD5 through `MessageDigest`, `Thread.sleep`): an opaque library call and timing.
- `RegexUtil` and the matcher methods of `RegexMatcher` (`match`, `matchAll`, the getters): thin wrappers over `java.util.regex`, whose semantics are not modelled.
- `RegexMatcher.ReplaceAll`: `String.replaceAll` is modelled as a literal left-to-right replacement. This agrees with Java for the patterns `#Ds` and `#D`, which contain no regex metacharacters, once Java has resolved the backslash escapes of the replacement.
- The regex-based `fromString` parsers of `Coord2D`, `Coord3D`, `Cube3D`, `Range` and `CoordND`, and `Graph.fromStringList`: they depend on `java.util.regex`.
- Floating point is not modelled:
  - `Rotation3D`, `Polynomial`, `Linear` and `AlgebraicFunction`;
  - `CoordND.size` (a square root) and `Coord3D.rotate`;
  - `BitString.fromLong(long)`, whose length comes from a logarithm;
  - the `prunefactor` multiplication in the `Cache` constructor. `Cache.New` takes the resulting `prunesize` as a given natural number.
- `BitString.fromHex`: it is not one of the modelled operations.
- `BitString` lengths of 64 or more: the index mask `(long) Math.pow(2, 63)` saturates to 2^63 − 1, and bit 63 is the sign of the Java `long`. Every `BitString` operation therefore requires a length of at most 63.
- BitString.Set: uses the intended length mask 2^length − 1. At length 63 the Java mask is 2^63 − 2, and clearing then also clears bit 0; this is `BitString.SetAsWritten`, recorded under "## Findings".
- BitString.Clear: as for `BitString.Set`.
- BitString.Negate: uses the intended length mask. At length 63 Java's `negate()` also clears bit 0; this is `BitString.NegateAsWritten`.
- `toString` and `hashCode` of `Cube3D`, `Square2D`, `HexCoord`, `Range`, `QElement`, the cache entry and `LabelMatrix`: formatting only. Equality is structural in the model.
- `StringUtil.fromMatrix`, and the `fromArray` overloads for `double` and `Object`: floating-point and arbitrary object printing are not modelled. The `int[]` and `long[]` overloads have the same body, and `StringUtil.FromArray` over unbounded integers stands for both.
- Coord3D.FromArray: Java's array constructor keeps every value of a longer array, so the object has more than three dimensions; its `move`, `add` and `diff` then throw IllegalArgumentException, and `equals` compares all N values. The model has no 3D point with more than three values, so it refuses such an array with IllegalArgument instead of building it. `Coord3D.LongerArrayKeepsAll` states what the N-dimensional point does.
- `CoordGrid.stream`, `CoordGrid.toString` and the grid iterator; grid methods outside the listed operations.
- The cache's wall clock: a parameter `now`. Its verbose logging to `System.err` is left out.
- `YieldException`: it is modelled as the `yielded` flag of what `execute` returns.
- Java `int` and `long` overflow: integers are unbounded throughout. The exceptions are `RegisterMachine.Jump`, which narrows the new IP back to `int`, and parsing, which checks the bounds.
- HashMap and HashSet iteration orders are explicit sequence parameters. Examples: the entry order before a prune, and the order in which `insertColumns` moves keys. Where the order does not matter, results are stated as sets.
- `RegisterMachine.Steps` runs for at most `fuel` instructions. A machine still Running when the fuel is used up stands for a program that has not yet stopped; the Java loop would simply go on.
- BreadthFirstSearch.GetDistances: requires a finite universe `u` that the successor function never leaves, so that every search ends. The Java loop also returns on an infinite state space once every target has been found (BreadthFirstSearch.java:94 and 212); such searches are not modelled.
- BreadthFirstSearch.GetDistancesOf: the same finite universe, for the same reason.
- BreadthFirstSearch.GetDistance: the same finite universe, for the same reason.
- BreadthFirstSearch.GetReachable: the same finite universe; here Java itself needs a finite reachable set to return.
- BreadthFirstSearch.GetShortestPaths: the same finite universe, for the same reason as `BreadthFirstSearch.GetDistances`.
- BreadthFirstSearch.GetShortestPath: the same finite universe, for the same reason.
- `NodeEdge.AddEdge`: the Java `assert` that the node is an end of the edge is off by default and is not modelled.
- `Graph.CliqueSets`: the `remaining` and `nextnodes` stacks of `getCliques` are modelled as sets, since their order does not affect the sets of nodes found. The order of the returned subgraphs is therefore not modelled.
- Window2D.Iterate: requires a window whose iterator stops: ordered corners, or the zero-width box of `new Window2D(0, 1)`, where the iterator yields nothing. Every other crossed box, such as that of `new Window2D(0, 2)`, makes the Java iterator run forever (`Window2D.IterateNeverEnds`), so there is no finite result to model.
- CoordGrid.CountIf: requires a window whose iterator stops, as for `Window2D.Iterate`; on any other crossed window the Java `countIf` never returns.
- GridInsert.Insert: requires a source window whose iterator stops, as for `Window2D.Iterate`; on any other crossed source window the Java `insert` never returns.
- `CoordGrid.FromStringList`: the separator is a single character (or none, meaning one cell per character), not a regular expression. A null default (which stores nothing) and a mapping function that returns null are not modelled.
- `CoordGrid.Update`: a function `f` that returns null (which the Java `set` would reject) is not modelled.
- `BinarySearch.FindFirst` requires 0 ≤ min ≤ max. `BinarySearch.NegativeBoundsStall` shows that with negative bounds the truncating midpoint can stop the interval from shrinking.
- `Line2D.GetPoints` and `Line2D.GetPointsStep` require non-zero steps: a zero step never terminates in the Java loop.
- `NumberUtil.GreatestCommonDivisorIsGreatest`: proved for non-negative inputs only. With a negative input, Java's truncating `%` can make the result negative.
- `NumberUtil.LowestCommonMultiplierIsCommon`: proved for non-negative inputs only, for the same reason; so is `NumberUtil.LowestCommonMultiplierIsLeast`.
- CoordGrid.Unset: states the corrected resize. The Java resize is `CoordGrid.UnsetAsWritten`; it differs only in the window, and only when no remaining key reaches −1 on an axis (`CoordGrid.UnsetAsWrittenAgrees`).
- CoordGrid.UnsetKeepsValid: about the corrected resize, for the same reason as `CoordGrid.Unset`.
- CoordGrid.UnsetAll: states the corrected resize. The Java resize is `CoordGrid.UnsetAllAsWritten`, which differs only in the window, as `CoordGrid.UnsetAllAsWrittenAgrees` states.
- GridInsert.ShiftLoop: its unset and set steps use the corrected resize, so its window is the bounding box of the keys; the Java window can be larger, as for `CoordGrid.Unset`. The cells are the same.
- GridInsert.PasteLoop: its unset steps use the corrected resize, so on a dynamic target the window is the bounding box of the keys; the Java window can be larger, as for `CoordGrid.Unset`. The cells are the same.
- GridInsert.Insert: the window comes from the corrected resize, as for `GridInsert.PasteLoop`; the Java `insert` calls the seeded resize through `unset`, so for keys (−3,−3) and (−5,−5), pasting a one-cell grid of the default at (−5,−5) leaves Java's window at (−3,−3)-(−1,−1) and the model's at (−3,−3)-(−3,−3). The cells are the same.
- GridInsert.InsertIsLoop: the loop it equates with `GridInsert.Insert` is the paste loop with the corrected resize; it matches the Java loop in the cells, not in the window.
- GridInsert.InsertLinesAsWritten: as written in the order of the moves, but the window comes from the corrected resize, as for `GridInsert.ShiftLoop`.
- GridInsert.InsertColumnsAsWritten: as for `GridInsert.InsertLinesAsWritten`.
- GridInsert.InsertRowsAsWritten: as for `GridInsert.InsertLinesAsWritten`.
- Cube3D.EqualsAsWritten: a non-null argument that is not a `Cube3D` makes the Java cast throw ClassCastException; the model's argument is an optional cuboid, so that case does not arise.
- Java strings are sequences of UTF-16 code units, while a Dafny `string` is a sequence of Unicode scalar values. Lengths, `charAt`, sorting, reversal, padding, `getRepeatingSequences` and `Text.StringHash` agree with Java only on text inside the Basic Multilingual Plane. `Integer.parseInt` and `Long.parseLong` also accept non-ASCII decimal digits, which `Text.ParseInt` rejects.
- `Range.ContainsRangeIsSubset`: stated for a well-formed inner range (min ≤ max) only. An empty inner range is a subset of anything, while `contains` compares the bounds.

## Findings

| source | as written | input that shows it | evidently intended | confidence | as-written member | corrected member |
|---|---|---|---|---|---|---|
| src/aocutil/grid/CoordGrid.java:201 | `unset` calls the resize of Window2D.java:107 | keys (−3,−3) and (−5,−5), unsetting (−5,−5): the window becomes (−3,−3)-(−1,−1) | the bounding box of the remaining key, the single cell (−3,−3) | not executed | CoordGrid.UnsetAsWrittenCounterexample | CoordGrid.Unset |
| src/aocutil/geometry/Window2D.java:107 | `resize` seeds the maximum corner with (−1, −1) | the single key (−3, −3): the window reaches to (−1, −1) | the bounding box of the keys, here the single cell (−3, −3) | not executed | Window2D.ResizeAsWrittenCounterexample | Window2D.Resize |
| src/aocutil/grid/CoordGrid.java:395-405 | `rotations % 4` is negative for a negative count, and every negative remainder takes the three-quarter-turn branch | rotate(−2) on a 2×1 grid holding (0,0) stores at (0,1) | a remainder in 0..3, so that −2 is a half turn, storing at (1,0) | not executed | GridTransform.RotateAsWrittenCounterexample | GridTransform.Rotate |
| src/aocutil/grid/CoordGrid.java:702-707 | `insertColumns` moves keys in hash-set order, so a moved key can overwrite one not yet moved | a row holding 1 at (2,0) and 2 at (3,0), with one column opened at 2; the hash set visits (2,0) before (3,0): only 1 remains, at (4,0) | every key moved by the number of inserted columns: 1 at (3,0), 2 at (4,0) | not executed | GridInsert.InsertColumnsAscendingLoses | GridInsert.InsertColumnsDescending |
| src/aocutil/upqueue/UniquePriorityQueue.java:94 | `remove` compares a queue node with a key, which never matches, so no node is unlinked | lowering key 1 from 5 to 1 in the queue 1=5, 2=7: the second poll returns the stale 1=5 | the old node of the key is unlinked, and the polls return 1=1 and then 2=7 | not executed | UniquePriorityQueue.StalePollAsWritten | UniquePriorityQueue.LowerIntended |
| src/aocutil/geometry/Square2D.java:85-88 | `getOverlap` passes (xlo, xhi, ylo, yhi) to a constructor that takes (x1, y1, x2, y2) | a rectangle overlapped with itself gives a rectangle that contains (50, 50), outside the original | the intersection of the two rectangles | not executed | Square2D.GetOverlapAsWrittenCounterexample | Square2D.GetOverlap |
| src/aocutil/geometry/Square2D.java:110-117 | `subtract` builds its pieces with the same swapped argument order | removing x in [5, 20] from x in [0, 10] (same y span) loses the uncovered point (1, 0) | pieces that cover every point of this rectangle outside the subtracted one | not executed | Square2D.SubtractAsWrittenCounterexample | Square2D.SubtractCovers |
| src/aocutil/geometry/Cube3D.java:194 | `equals` compares the maximum corner with itself | [0,1]³ and [0,2]³ are called equal | equal exactly when both corners are equal | not executed | Cube3D.EqualsAsWrittenCounterexample | Cube3D.Equals |
| src/aocutil/BitString.java:31 | `(long) Math.pow(2, length) - 1` saturates at length 63 to 2^63 − 2, whose bit 0 is clear, so `clear` and `negate` also clear bit 0 | fromLong(1, 63).clear(5) gives the value 0 | the mask 2^63 − 1, under which clear(5) leaves 1 | not executed | BitString.ClearAsWrittenCounterexample | BitString.Clear |
| src/aocutil/number/NumberUtil.java:68 | `fromDigits` stops at `array.length - 1`, so it never reads the last digit | fromDigits(toDigits(123)) is 12 | the value of all requested digits: fromDigits(toDigits(n)) is n | not executed | NumberUtil.FromDigitsDropsLast | NumberUtil.DigitsRoundTrip |
| src/aocutil/graph/Graph.java:161-165 | `getCliques` copies each edge with the original graph's node objects, so `addEdge` registers it on those nodes and not on the subgraph's own | the graph a - b: in its clique, node a has no neighbours | the subgraph's own nodes hold the copied edges, so a keeps neighbour b | not executed | Graph.CliquesAsWrittenLoseEdges | Graph.GetCliques |
