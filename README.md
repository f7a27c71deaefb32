# Wave Function Collapse, modelled in Dafny

This project models the core of a tile-based Wave Function Collapse
generator: the solver class `WaveFunction` and the image codec `ImageHelper`.

The solver works as follows.

- It learns from an example grid of tile values:
  - the catalogue of distinct values, with their frequencies (`GetTileFreq`);
  - the adjacency rules, each a triple (tile, neighbour tile, direction), as observed in the example (`GetCompatabilities`).
- It starts from a wave: a `bool[h, w, n]` superposition in which every tile is possible in every cell.
- Each cell carries an entropy key. The main loop (`CollapseWave`) repeatedly:
  - picks the cell with the lowest positive key (`GetLowestEntropyPos`);
  - collapses it to one of its tiles, drawn at random in proportion to its frequency (`PickWeightedRandomTile`);
  - propagates the collapse (`PropegateCollapse`). Propagation removes every neighbouring tile that no tile of the current cell supports, refreshes that neighbour's key, and recurses.
- The loop ends when no key is positive. `Generate` restarts it after a contradiction and then reads the collapsed wave back as a grid of example values (`GenerateOutput`).

The codec works as follows.

- `GetTileIDs` cuts an image into tileHeight-by-tileWidth blocks and flattens each block row by row. It gives every block the id of its first equal block in scan order, and new blocks take the next free id.
- `GenerateOutputImage` pastes the flattened blocks back at the cells of a grid of ids.

The model is split into these modules:

- Dedup: first-appearance deduplication, which specifies every catalogue the source builds.
- Directions: the four moves and the valid moves inside a grid.
- Weights: sums, prefix sums and the weighted draw.
- Entropy: the entropy-key law, and IEEE NaN as the source meets it.
- WaveState: the wave, its set view, fills, cell entropy and output.
- TileModel: the tile catalogue and the adjacency rules.
- Arcs: arc consistency.
- Propagation: removing unsupported tiles and propagating.
- Selection: the lowest positive key, and the full-collapse test.
- Solver: a collapse step and the collapse loop.
- Generator: the `WaveFunction` class and `Generate`.
- ImageHelper: the image codec.

Some external inputs become parameters:

- The entropy is an abstract key function `entropyOf` on weight vectors. It obeys `EntropyLaw`: a single remaining tile has key 0, and two or more have a positive key.
- `System.Random` is a parameter. `rolls(k)` is the k-th draw of an attempt, and `draws(a, k)` is that draw in attempt a. The draw used is `1 + roll % total`.
- A bitmap is an `array2<int>` of ARGB values, indexed `[row, column]`.

The proofs rely on three central facts:

- **Arc consistency.** Every cell that propagation touches ends with consistent arcs.
- **Solutions survive.** Propagation removes only tiles that no rule-obeying tiling can use. Any tiling that obeys every adjacency rule and fits the wave before a step still fits it afterwards. For a collapse step this holds for the tilings that keep the chosen tile. The collapse loop returns a record (`History`) of the tile it picked at each step and the wave before each step, linked step by step in this way. The record also fixes what each step picked (`Driven`): the cell with the lowest positive key, first in scan order, and the tile that step's draw selects there. So a contradiction shows that no such tiling agrees with the tiles picked in that attempt.
- **Output faithfulness.** Any output `Generate` returns uses only example values. When the example has two different values, every pair of adjacent output values also occurs adjacent, in the same direction, in the example.

## Model

| member | source | states |
|---|---|---|
| Dedup.FirstSeenDistinct | WaveFunctionCollapse/WaveFunction.cs:324-329 | a catalogue built by "add if not yet present" never holds a value twice |
| Dedup.FirstSeenCovers | WaveFunctionCollapse/WaveFunction.cs:324-329 | every scanned value is in the catalogue |
| Dedup.FirstSeenSubset | WaveFunctionCollapse/WaveFunction.cs:324-329 | the catalogue holds only scanned values |
| Dedup.IndexOf | WaveFunctionCollapse/WaveFunction.cs:324 | List.IndexOf: -1 exactly when the value is absent, otherwise the first position holding it |
| Dedup.IndexOfDistinct | WaveFunctionCollapse/WaveFunction.cs:349-350 | in a list without repeats, IndexOf of the i-th element is i |
| Dedup.FirstSeenSnoc | WaveFunctionCollapse/WaveFunction.cs:324-329 | scanning one more value appends it exactly when it is new |
| Dedup.FirstSeenPrefix | WaveFunctionCollapse/ImageHelper.cs:57-61 | ids handed out so far never change later: an earlier catalogue is a prefix of the final one |
| Dedup.NewValueGetsNextId | WaveFunctionCollapse/ImageHelper.cs:57-61 | a block not seen before gets the next free id, which is the current catalogue size |
| Directions.Opposite | WaveFunctionCollapse/WaveFunction.cs:16-21 | up/down and left/right are inverse moves, with negated row and column offsets |
| Directions.GetValidDirections | WaveFunctionCollapse/WaveFunction.cs:367-388 | a move is listed iff both its ends lie inside the grid, and no move is listed twice |
| Directions.ValidDirectionStep | WaveFunctionCollapse/WaveFunction.cs:213 | every listed move leads to a neighbour inside the grid |
| Weights.SumSnoc | WaveFunctionCollapse/WaveFunction.cs:420-423 | adding one weight to the list adds it to the total |
| Weights.PrefixAll | WaveFunctionCollapse/WaveFunction.cs:427-431 | the running total after the last tile is the whole sum |
| Weights.PrefixMonotone | WaveFunctionCollapse/WaveFunction.cs:427-431 | the running total never decreases |
| Weights.SumIncrement | WaveFunctionCollapse/WaveFunction.cs:332 | incrementing one frequency raises the total by one |
| Weights.Chosen | WaveFunctionCollapse/WaveFunction.cs:426-431 | for a draw r in 1..total, the chosen tile has positive weight and the first running total reaching r |
| Weights.ChosenUnique | WaveFunctionCollapse/WaveFunction.cs:426-431 | that tile is the only one whose weight interval contains r |
| Weights.IntervalSize | WaveFunctionCollapse/WaveFunction.cs:425 | the draws lo+1..hi number hi-lo |
| Weights.DrawsChoosingTile | WaveFunctionCollapse/WaveFunction.cs:414-434 | exactly ws[i] of the draws 1..total choose tile i, so each tile is picked in proportion to its weight |
| Weights.SourceDrawMissesLastUnit | WaveFunctionCollapse/WaveFunction.cs:425 | with the draw in [1, total) as written, when the total is at least 2, a last positive tile of weight 1 is never chosen |
| Weights.SourceDrawNeverPicksSecondOfTwo | WaveFunctionCollapse/WaveFunction.cs:425 | with weights [1, 1], the draw as written always picks tile 0 |
| Weights.DrawTile | WaveFunctionCollapse/WaveFunction.cs:425-431 | the tile the draw `1 + roll % total` selects is in range and has positive weight |
| Weights.PickWeightedRandomTile | WaveFunctionCollapse/WaveFunction.cs:414-434 | no pick iff the total weight is 0; otherwise the tile that draw `1 + roll % total` selects, which is in range and has positive weight |
| Entropy.PositivesZero | WaveFunctionCollapse/WaveFunction.cs:397-404 | no tile has positive weight iff the total weight is 0 |
| Entropy.PositivesSome | WaveFunctionCollapse/WaveFunction.cs:397-404 | at least one positive weight iff some entry is positive |
| Entropy.PositivesTwo | WaveFunctionCollapse/WaveFunction.cs:397-404 | at least two positive weights iff two distinct entries are positive |
| Entropy.CollapsedIffSingle | WaveFunctionCollapse/WaveFunction.cs:392-393 | for a cell with a tile, its key is at most 0 iff exactly one tile is left |
| Entropy.CountKeyObeysLaw | WaveFunctionCollapse/WaveFunction.cs:406 | the entropy law can be met: "number of tiles minus one" obeys it |
| Entropy.EntropyAsWritten | WaveFunctionCollapse/WaveFunction.cs:395-406 | defined as the IEEE result of the source's formula; the ensures records the fact the NaN finding uses: NaN exactly when the cell's total weight is 0 |
| Entropy.EmptiedCellGoesUnnoticed | WaveFunctionCollapse/WaveFunction.cs:407-410 | for an emptied cell the `== NaN` guard does not throw, its key is not > 0, and it is not < any bound |
| Entropy.EmptiedTwoTileCell | WaveFunctionCollapse/WaveFunction.cs:407-410 | the concrete emptied cell [0, 0] gives NaN, and the guard does not fire |
| WaveState.Possible | WaveFunctionCollapse/WaveFunction.cs:60-61 | the set view holds (y, x, t) iff it is in range and wave[y, x, t] is set |
| WaveState.CellWeights | WaveFunctionCollapse/WaveFunction.cs:130-142 | the weight vector of a cell: the frequency of each possible tile, 0 for the others |
| WaveState.SameCellWeights | WaveFunctionCollapse/WaveFunction.cs:130-142 | cells with the same tiles have the same weight vector |
| WaveState.CellWeightsNonEmpty | WaveFunctionCollapse/WaveFunction.cs:397-404 | with positive frequencies, a cell has a tile iff its weight vector has a positive entry |
| WaveState.CellWeightsSingle | WaveFunctionCollapse/WaveFunction.cs:397-404 | a non-empty cell has one positive entry iff exactly one tile is possible there |
| WaveState.Fill3D | WaveFunctionCollapse/WaveFunction.cs:287-300 | every element of the 3-D array holds the value |
| WaveState.Fill2D | WaveFunctionCollapse/WaveFunction.cs:301-311 | every element of the 2-D array holds the value |
| WaveState.PossibleTiles | WaveFunctionCollapse/WaveFunction.cs:202-209 | exactly the tiles still possible at the cell, in range and in increasing order |
| WaveState.CalcCellEntropy | WaveFunctionCollapse/WaveFunction.cs:390-412 | contradiction iff the cell has no possible tile; the key is the entropy of the cell's weight vector |
| WaveState.GenerateOutput | WaveFunctionCollapse/WaveFunction.cs:98-118 | a fresh h-by-w grid holding, at each cell, the value of the lowest possible tile there, and 0 where none is possible |
| TileModel.Row | WaveFunctionCollapse/WaveFunction.cs:321-323 | row y of the example, in column order |
| TileModel.RowMajorLength | WaveFunctionCollapse/WaveFunction.cs:319-323 | the row-major scan of r rows has r times width values |
| TileModel.RowMajorHasCell | WaveFunctionCollapse/WaveFunction.cs:319-323 | every cell of the scanned rows occurs in the scan |
| TileModel.RowMajorCellOf | WaveFunctionCollapse/WaveFunction.cs:319-323 | every value of the scan is some cell's value |
| TileModel.CountedNew | WaveFunctionCollapse/WaveFunction.cs:325-329 | a new value enters the catalogue with count 1, and the catalogue stays exact |
| TileModel.CountedOld | WaveFunctionCollapse/WaveFunction.cs:330-333 | a known value's count goes up by one, and the catalogue stays exact |
| TileModel.CountRow | WaveFunctionCollapse/WaveFunction.cs:321-334 | scanning one more row keeps the catalogue exact: first-seen order, each count the value's multiplicity |
| TileModel.GetTileFreq | WaveFunctionCollapse/WaveFunction.cs:313-336 | tiles are the example's values in first-seen order, without repeats and covering every cell; each frequency is that value's count, at least 1; the frequencies sum to the cell count |
| TileModel.CatalogueComplete | WaveFunctionCollapse/WaveFunction.cs:313-336 | an exact catalogue covers every cell, has positive frequencies, and its frequencies sum to the cell count |
| TileModel.CellRulesMembers | WaveFunctionCollapse/WaveFunction.cs:346-351 | a cell contributes exactly one rule per valid move: (its tile id, the neighbour's tile id, the move) |
| TileModel.RowRulesMembers | WaveFunctionCollapse/WaveFunction.cs:344-361 | the rules of a row prefix are those of its cells |
| TileModel.ScanRulesMembers | WaveFunctionCollapse/WaveFunction.cs:342-363 | the rules of the whole scan are those of its cells |
| TileModel.RowRulesStep | WaveFunctionCollapse/WaveFunction.cs:344-346 | scanning one more cell appends that cell's rules |
| TileModel.AddCellRules | WaveFunctionCollapse/WaveFunction.cs:346-361 | the list is the first-seen dedup of all rules scanned so far, this cell's included |
| TileModel.GetCompatabilities | WaveFunctionCollapse/WaveFunction.cs:337-365 | the rules are the observed adjacencies in first-seen order, without repeats; a rule is listed iff it is observed; with a complete catalogue every rule's tiles are valid ids |
| TileModel.RulesComplete | WaveFunctionCollapse/WaveFunction.cs:337-365 | the deduplicated scan holds exactly the observed adjacencies, over valid ids |
| TileModel.ObservedInverse | WaveFunctionCollapse/WaveFunction.cs:346-351 | if b is seen in direction d of a, then a is seen in the opposite direction of b |
| TileModel.ObservedSymmetric | WaveFunctionCollapse/WaveFunction.cs:346-351 | rule (a, b, d) is observed iff (b, a, opposite d) is |
| Arcs.ArcOKMono | WaveFunctionCollapse/WaveFunction.cs:258-260 | removing tiles elsewhere keeps an unchanged cell's arc consistent |
| Arcs.SettledMono | WaveFunctionCollapse/WaveFunction.cs:258-260 | removing tiles elsewhere keeps an unchanged cell settled |
| Arcs.SameCellBetween | WaveFunctionCollapse/WaveFunction.cs:258-260 | a cell unchanged from p to q is unchanged at every step between them |
| Arcs.SettledOutside | WaveFunctionCollapse/WaveFunction.cs:255-260 | removing tiles from one cell keeps every other changed cell settled |
| Arcs.SettledAfterPropagation | WaveFunctionCollapse/WaveFunction.cs:264-267 | after the recursive call, every cell changed since the start is settled |
| Arcs.KeepsSolutionsTrans | WaveFunctionCollapse/WaveFunction.cs:264-267 | two steps that each keep the rule-obeying tilings agreeing with their picks, taken in turn, keep those agreeing with both lists of picks |
| Arcs.NoSolutionLeft | WaveFunctionCollapse/WaveFunction.cs:82-89 | when a step that keeps tilings empties a cell, no rule-obeying tiling that agrees with the picks fits the wave the step started from |
| Arcs.HistoryExtend | WaveFunctionCollapse/WaveFunction.cs:122-158 | one more step of that kind (possible pick, only removals, the pick alone in its cell, tilings through the pick kept) extends a run's record |
| Arcs.HistorySteps | WaveFunctionCollapse/WaveFunction.cs:122-158 | in a recorded run, every step k picked a tile possible before it, only removed tiles, left the picked tile alone in the picked cell, and kept every rule-obeying tiling through its pick |
| Arcs.HistoryPrefix | WaveFunctionCollapse/WaveFunction.cs:122-158 | the first n steps of a recorded run are themselves a recorded run |
| Arcs.HistoryKeepsSolutions | WaveFunctionCollapse/WaveFunction.cs:122-158 | a recorded run as a whole only removes tiles and keeps every rule-obeying tiling that agrees with all its picks |
| Arcs.HistoryShrinks | WaveFunctionCollapse/WaveFunction.cs:122-158 | in a recorded run, a later wave is contained in every earlier one |
| Arcs.PicksAgree | WaveFunctionCollapse/WaveFunction.cs:125-149 | two steps of a recorded run that picked the same cell picked the same tile |
| Propagation.HasSupport | WaveFunctionCollapse/WaveFunction.cs:233-253 | true iff some tile of the current cell has a rule (tile, adjTile, direction) |
| Propagation.Revise | WaveFunctionCollapse/WaveFunction.cs:216-261 | exactly the unsupported tiles of the neighbour are removed, and nothing else; isUpdated iff one was removed |
| Propagation.RevisedArcOK | WaveFunctionCollapse/WaveFunction.cs:228-261 | after the removal, the arc from the current cell to that neighbour is consistent |
| Propagation.ReviseKeepsSolutions | WaveFunctionCollapse/WaveFunction.cs:228-261 | removing the neighbour's unsupported tiles keeps every rule-obeying tiling that fits the wave |
| Propagation.PropegateCollapse | WaveFunctionCollapse/WaveFunction.cs:162-271 | tiles are only removed, and every rule-obeying tiling that fitted the wave still fits it; a contradiction leaves some cell without tiles; otherwise the keys are up to date, every arc out of (y, x) is consistent, and every changed cell is settled |
| Propagation.AfterRevise | WaveFunctionCollapse/WaveFunction.cs:255-261 | a removal changes only the neighbour, keeps other changed cells settled, and adds the direction to the consistent arcs of an unchanged origin |
| Propagation.AfterNeighbour | WaveFunctionCollapse/WaveFunction.cs:264-268 | after the neighbour's propagation, changed cells are settled and the origin's arcs done so far stay consistent |
| Propagation.RefreshEntropy | WaveFunctionCollapse/WaveFunction.cs:266 | the neighbour's key is recomputed; contradiction iff the neighbour has no tile; otherwise all keys are up to date |
| Propagation.PropagateDirection | WaveFunctionCollapse/WaveFunction.cs:213-269 | one pass of the direction loop: only removals, every rule-obeying tiling that fitted the wave still fits it, a contradiction leaves a cell empty, otherwise keys current, changed cells settled, and this direction's arc consistent |
| Selection.GetLowestEntropyPos | WaveFunctionCollapse/WaveFunction.cs:436-455 | LowestPositive: (0, 0) when no key is positive; otherwise a cell with the least positive key, the first in scan order among equals |
| Selection.IsFullyCollapsed | WaveFunctionCollapse/WaveFunction.cs:273-285 | true iff no key is positive |
| Solver.CurrentTileWeights | WaveFunctionCollapse/WaveFunction.cs:130-142 | the cell's weight vector: frequency where the tile is possible, 0 elsewhere |
| Solver.CollapseCell | WaveFunctionCollapse/WaveFunction.cs:145-149 | the cell holds exactly the chosen tile afterwards, and every other cell is unchanged |
| Solver.AfterCollapse | WaveFunctionCollapse/WaveFunction.cs:145-150 | collapsing keeps every cell non-empty, changes only the picked cell, and keeps other changed cells settled |
| Solver.AfterCollapsePropagation | WaveFunctionCollapse/WaveFunction.cs:153 | after propagation, every changed cell is settled and no cell is empty |
| Solver.KeysAfterCollapse | WaveFunctionCollapse/WaveFunction.cs:150 | key 0 for the collapsed cell, together with the other keys, is the entropy of every cell |
| Solver.PickedCellHasChoice | WaveFunctionCollapse/WaveFunction.cs:126-144 | the picked cell has positive total weight; if its key is positive, a tile other than the chosen one is possible there |
| Solver.FullyCollapsedSingle | WaveFunctionCollapse/WaveFunction.cs:158 | when no key is positive and no cell is empty, every cell holds exactly one tile |
| Solver.PickTile | WaveFunctionCollapse/WaveFunction.cs:130-144 | the chosen tile is possible at the cell and is the one the draw `1 + roll % total` selects from the cell's weights (DrawTile); with a positive key, another tile remains to be removed |
| Solver.CollapseAt | WaveFunctionCollapse/WaveFunction.cs:145-150 | the cell holds only the chosen tile, every other cell is unchanged, the keys stay current, and no cell is empty |
| Solver.CollapseKeepsSolutions | WaveFunctionCollapse/WaveFunction.cs:145-149 | collapsing a cell to tile t keeps every tiling that fitted the wave and puts t there |
| Solver.CollapsePropagate | WaveFunctionCollapse/WaveFunction.cs:145-153 | only removals, and the cell keeps at most the chosen tile; every rule-obeying tiling that fitted the wave and puts that tile there still fits it; a contradiction leaves a cell empty; otherwise keys current, no cell empty, changed cells settled |
| Solver.LowestKeyAgrees | WaveFunctionCollapse/WaveFunction.cs:125-127 | while the cached keys agree with the wave, a cell is the lowest positive cached key (LowestPositive) exactly when it is the lowest positive key of the wave itself (LowestKey) |
| Solver.SelectedDrawn | WaveFunctionCollapse/WaveFunction.cs:125-144 | the selector's cell under agreeing keys, with the tile the draw selects there, is a drawn step of the wave (Drawn) |
| Solver.SelectTile | WaveFunctionCollapse/WaveFunction.cs:125-144 | the cell is GetLowestEntropyPos's choice (LowestPositive) and, with the tile the draw `1 + roll % total` selects, a drawn step (Drawn); the pair is possible, and with a positive key another tile remains at the cell |
| Solver.CollapseStep | WaveFunctionCollapse/WaveFunction.cs:125-153 | the picked cell is the lowest-key cell of the keys before the step, as GetLowestEntropyPos chooses it (LowestPositive), and the picked tile is the one the draw `1 + roll % total` selects from that cell's weights before the step (Drawn); only removals, and a strict removal when some key is positive; the pick is a possible (cell, tile) and afterwards the only tile of its cell; every rule-obeying tiling that fitted the wave and puts the picked tile at the picked cell still fits it, and likewise from the start wave for the picks so far plus this one; a contradiction leaves a cell empty and no such tiling exists; otherwise keys current, no cell empty, changed cells settled |
| Solver.DrivenSnoc | WaveFunctionCollapse/WaveFunction.cs:122-158 | one more drawn step, made with the next draw, extends a record in which every step k is the drawn step for draw k |
| Solver.CollapseRound | WaveFunctionCollapse/WaveFunction.cs:122-158 | one pass of the loop: only removals, strict when some key is positive; the record grows by one step and stays a History and Driven, from the same start wave; a contradiction leaves a cell empty and rules out every tiling that agrees with the picks; otherwise keys current, no cell empty, changed cells settled |
| Solver.CollapseWave | WaveFunctionCollapse/WaveFunction.cs:120-160 | only removals; the returned picks and waves are a History of the run from the old wave to the new one, and are Driven by the draws: step k picked the lowest-key cell of waves[k] and the tile draw rolls(k) selects there; so every rule-obeying tiling that fitted the wave and agrees with the picks still fits it; Contradiction leaves a cell empty and means no such tiling exists; Collapsed means every cell holds exactly one tile and every changed cell has consistent arcs |
| Generator.CatalogueFromExample | WaveFunctionCollapse/WaveFunction.cs:46 | every catalogue tile is a value of the example |
| Generator.FullCellWeights | WaveFunctionCollapse/WaveFunction.cs:66-68 | in the full wave, a cell's weight vector is the frequency list |
| Generator.EveryCellSettled | WaveFunctionCollapse/WaveFunction.cs:72-90 | when the full wave (two tiles or more) has collapsed, every cell was changed, so every arc is consistent |
| Generator.CellOutput | WaveFunctionCollapse/WaveFunction.cs:107-113 | a collapsed cell outputs the value of its single tile |
| Generator.CollapsedArcSeen | WaveFunctionCollapse/WaveFunction.cs:346-351 | a consistent arc between two collapsed cells is an adjacency seen in the example |
| Generator.CollapsedOutputFaithful | WaveFunctionCollapse/WaveFunction.cs:95-118 | the output of a collapsed wave holds only example values, and with consistent arcs each adjacent pair is seen in the example |
| Generator.TwoValuesTwoTiles | WaveFunctionCollapse/WaveFunction.cs:313-336 | an example with two different values has at least two tiles |
| Generator.FailedAttemptHasNoSolution | WaveFunctionCollapse/WaveFunction.cs:77-89 | a failed attempt shows that no tiling with tiles 0..n-1 obeys the rules and puts the attempt's picked tiles at the picked cells |
| Generator.FailuresSnoc | WaveFunctionCollapse/WaveFunction.cs:82-89 | appending a failed attempt keeps every record a failed attempt |
| Generator.LearnExample | WaveFunctionCollapse/WaveFunction.cs:44-49 | positive frequencies, one per tile; tiles are example values covering every cell; no tiles iff the example is empty; rules are exactly the observed adjacencies; tiles and rules are the first-seen catalogue and rule list of the example |
| Generator.InitialWave | WaveFunctionCollapse/WaveFunction.cs:59-70 | a fresh wave with every tile possible everywhere, and every key the start entropy of the full weight vector |
| Generator.Attempt | WaveFunctionCollapse/WaveFunction.cs:77-95 | returns a History of the collapse from the full wave to the final one, Driven by the attempt's draws; on success, an h-by-w grid of example values whose adjacent pairs (two tiles or more) are seen in the example; None only after a contradiction, which leaves a cell empty, makes the record a failed attempt, and rules out every rule-obeying tiling that agrees with the picks |
| Generator.ReadBack | WaveFunctionCollapse/WaveFunction.cs:95 | a fresh h-by-w grid of example values read from a collapsed wave; when the wave started full, every changed cell is settled and there are two tiles or more, every adjacent pair occurs adjacent in the same direction in the example |
| Generator.Restart | WaveFunctionCollapse/WaveFunction.cs:72-90 | a grid as Attempt gives it, after fewer failed attempts than allowed; None after exactly `attempts` failed attempts; every failure is recorded with its history from the full wave to an emptied cell |
| Generator.WaveFunction.constructor | WaveFunctionCollapse/WaveFunction.cs:33-38 | stores width, height and example |
| Generator.WaveFunction.Generate | WaveFunctionCollapse/WaveFunction.cs:39-96 | None for an empty output or example; a grid is a waveHeight-by-waveWidth grid of example values, where, if the example has two values, every adjacent pair occurs adjacent in the same direction in the example; each failed attempt is recorded as a run over the learnt catalogue and rules from the full wave to an emptied cell; a grid comes before all attempts fail, and otherwise None comes after exactly `attempts` failed attempts |
| ImageHelper.BlockAt | WaveFunctionCollapse/ImageHelper.cs:31-41 | the flattened block has tileHeight*tileWidth pixels, and entry yoff*tileWidth+xoff is pixel (blockY*tileHeight+yoff, blockX*tileWidth+xoff) |
| ImageHelper.BlockLinesLength | WaveFunctionCollapse/ImageHelper.cs:34-41 | n flattened rows hold n*tileWidth pixels |
| ImageHelper.BlockLinesAt | WaveFunctionCollapse/ImageHelper.cs:34-41 | the row-by-row layout puts pixel (yoff, xoff) at yoff*tileWidth+xoff |
| ImageHelper.GridFits | WaveFunctionCollapse/ImageHelper.cs:17 | every cell of the height/tileHeight by width/tileWidth grid is a block lying inside the image |
| ImageHelper.CopyBlockLine | WaveFunctionCollapse/ImageHelper.cs:36-40 | appends one pixel row of the block after the first counter entries |
| ImageHelper.FlattenBlock | WaveFunctionCollapse/ImageHelper.cs:31-41 | a fresh array equal to the block flattened row by row |
| ImageHelper.FindTile | WaveFunctionCollapse/ImageHelper.cs:43-54 | unique iff the block is not yet listed; tileId -1 then, otherwise the first index holding an equal block |
| ImageHelper.IdentifyBlock | WaveFunctionCollapse/ImageHelper.cs:42-65 | the palette stays the first-seen dedup of the scanned blocks, and the cell's id points to an equal block |
| ImageHelper.IdentifyRow | WaveFunctionCollapse/ImageHelper.cs:24-66 | after a row, the palette is the dedup of the blocks scanned so far, and every id of the row points to that cell's block |
| ImageHelper.GetTileIDs | WaveFunctionCollapse/ImageHelper.cs:12-69 | a fresh height/tileHeight by width/tileWidth id grid; the palette is the first-seen dedup of the blocks in scan order, without repeats; each id is valid and points to its cell's block |
| ImageHelper.CornerOffsetDecoded | WaveFunctionCollapse/ImageHelper.cs:97-102 | a pixel written at a cell's corner plus an in-tile offset is that cell's tile pixel |
| ImageHelper.WriteTileRow | WaveFunctionCollapse/ImageHelper.cs:98-103 | writes one tile row at its place and leaves every other pixel unchanged |
| ImageHelper.WriteBlock | WaveFunctionCollapse/ImageHelper.cs:86-104 | every pixel of the cell's block is that tile's pixel, and everything else is unchanged |
| ImageHelper.GenerateOutputImage | WaveFunctionCollapse/ImageHelper.cs:71-108 | a fresh (height*tileHeight) by (width*tileWidth) image whose pixel (py, px) is pixel (py%tileHeight, px%tileWidth) of the tile at cell (py/tileHeight, px/tileWidth) |
| ImageHelper.DecodedBlockPixel | WaveFunctionCollapse/ImageHelper.cs:97-102 | decoding with the ids and palette of GetTileIDs gives back the image pixel |
| ImageHelper.RoundTrip | WaveFunctionCollapse/ImageHelper.cs:12-108 | decoding the encoding of an image restores every pixel covered by whole blocks; when both image sides are multiples of the tile size, the output has the image's own size |

## Left out

- Program.cs, which loads and saves images and sets the sizes, is not part of this model.
- Bitmaps are `array2<int>` of ARGB values, indexed [row, column], and `Color.FromArgb`/`ToArgb` is the identity on them. The refusal of a zero-sized `Bitmap` by System.Drawing is not modelled.
- ImageHelper.GetTileIDs: its precondition requires positive tile sizes. In the source, a tile size of 0 fails by division by zero at ImageHelper.cs:17. A negative size whose magnitude is at most the image side fails there too, on a negative array length. A negative size larger in magnitude than the image side makes C#'s truncating division give 0, and the source then returns an empty id grid and palette without failing. The model does not cover that case.
- ImageHelper.GenerateOutputImage: a precondition requires every id to be a valid palette index and every tile to have at least tileHeight*tileWidth pixels. The source throws otherwise.
- Shannon entropy in floating point is not computed. Keys are an abstract `entropyOf` under `EntropyLaw`, so ties between keys are not modelled exactly.
- System.Random becomes the parameters `rolls`/`draws`. The model draws `1 + roll % total`, the range `1..total`. The selection loop at WaveFunction.cs:427-431 needs a draw equal to the total to reach a last tile of weight 1 (see Findings).
- The DEBUG console output is left out.
- Generator.WaveFunction.Generate:
  - The unbounded restart loop is bounded by `attempts`. The model gives None once they all end in a contradiction, and `failures` records the picks and waves of each one. Termination of the source's own loop is not modelled.
  - A zero-sized output or an empty example also gives None. The source fails or retries forever there.
  - The adjacency guarantee is stated only when the example has two different values.
- A contradiction is reported through `Outcome`/`bool` results rather than an exception caught by `Generate`.
- Weights.PickWeightedRandomTile: the "random number error" throw is unreachable for a draw in 1..total, so it is not modelled.
- Directions are a datatype rather than `int[]` vectors. A rule stores the Direction value itself where the source stores `Array.IndexOf(directions, direc)`, its position in the `directions` table.
- Solver.CollapseWave: the wave is updated in place. The source's by-reference return of the same array is not modelled separately.

## Findings

| source | as written | input that shows it | evidently intended | confidence | as-written member | corrected member |
|---|---|---|---|---|---|---|
| WaveFunctionCollapse/WaveFunction.cs:425 | `rand.Next(1, sumWeight)` excludes its upper bound, so the draw is never the total | weights [1, 1]: the draw is always 1, so tile 1 is never picked; a total of 1 makes `Next(1, 1)` return 1 | a draw in 1..total inclusive, so each tile is picked in proportion to its weight | high (not executed) | Weights.SourceDrawNeverPicksSecondOfTwo | Weights.DrawsChoosingTile |
| WaveFunctionCollapse/WaveFunction.cs:407-410 | `entropy == double.NaN` is never true, because NaN equals nothing | a cell emptied by propagation (weights [0, 0]) has NaN entropy: it is not > 0 and not < any bound, so it is never picked, the loop may report success, and no contradiction is raised | report a contradiction exactly when the cell has no possible tile | high (not executed) | Entropy.EmptiedTwoTileCell | WaveState.CalcCellEntropy |
