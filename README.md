# Sliding puzzle engine in Dafny

This project models the engine of a sliding-tile puzzle game and proves
properties of it. The game cuts an image into a `columns x rows` grid of tiles
and leaves the top-left slot empty. It then shuffles the tiles by making 100
player-like moves. A player clicks a tile in the empty slot's row or column,
and that tile and every tile between it and the empty slot slide one slot
toward it. The main menu plays a background puzzle that solves itself by
replaying the shuffle's reverse-move list.

The model has two layers:

- **Pure layer** (`slots.dfy`, `board.dfy`, `shuffle_walk.dfy`). These are
  value-level definitions:
  - the board: cells holding nothing or a tile, known by its home slot;
  - a slide, a cascade and a click;
  - the shuffle as a walk driven by a sequence of random picks.

  Lemmas state what these operations mean. A cascade permutes the tiles and
  shifts the run of tiles by one slot. Clicking the old empty slot undoes a
  click. The shuffle's reverse-move list, replayed from its second entry,
  restores the solved board. `isComplete` holds exactly on the solved board.
- **Imperative layer** (`tile.dfy`, `tile_grid.dfy`, `menu_replay.dfy`). These
  model the objects:
  - `Tile` is a class with the source's fields: slots, position, destination
    and velocity.
  - `TileGrid` is a class over an `array<Tile?>` with one `null` cell. Every
    method is proved against the pure layer through `Model()`, the board the
    array holds.

The grid-size suggestions of `TileGrid.createSuggestions` are in
`suggestions.dfy`.

The engine utilities each get their own file:
- a virtual key with press counting and two behaviours (`virtual_key.dfy`,
  with Java's 32-bit int addition);
- a looping frame animation (`animation.dfy`);
- a frames-per-second counter (`fps_counter.dfy`);
- the 16-bit little-endian sample helpers of the sound filter
  (`sound_filter.dfy`, with Java's byte and short casts);
- the mono-to-stereo conversion of the sound manager (`sound_manager.dfy`);
- an endlessly looping byte stream (`looping_stream.dfy`). Its inherited
  `java.io.ByteArrayInputStream` state (`buf`, `pos`, `count`, `mark`) is
  modelled explicitly.

Modelling conventions:
- **Randomness.** `java.util.Random` draws are inputs: `picks[i]` is the i-th
  `nextInt` result of the shuffle. `Fits` states the bound that `nextInt` guarantees.
- **Floats.** Java `float` coordinates are `real`. The tile animation is exact
  arithmetic here.
- **Null results.** `null` results are `Option`.
- **Images.** Images are left abstract: tiles carry no pixels, and an
  animation frame carries a type parameter.

## Model

| member | source | states |
|---|---|---|
| Slots.IndexingHolds | source/bitzawolf/TileGrid.java:36-40 | slot (x, y) and array index x + y * columns are inverse bijections between the slots of the grid and 0 .. columns*rows-1 |
| Slots.JavaDiv | source/bitzawolf/TileGrid.java:130-131 | int division truncates toward zero: floor for a non-negative pixel, rounding up for a negative one |
| Slots.PixelToCell | source/bitzawolf/TileGrid.java:124-131 | a pixel in (-size, size*count) falls in a cell in [0, count) |
| Board.Toward | source/bitzawolf/TileGrid.java:77-83 | the next slot of a cascade is one slot nearer the target, on the same line |
| Board.Step | source/bitzawolf/TileGrid.java:173-187 | a slide leaves the board shaped and makes the slid-from slot the empty one |
| Board.Click | source/bitzawolf/TileGrid.java:62-96 | the board after moveTileViaSlot keeps the grid's shape; what it is in each case is stated by ClickCases |
| Board.Replay | source/bitzawolf/MainMenuLoop.java:146-160 | clicking a list of slots in order keeps the grid's shape; ShuffleRoundTrip and ReplayBackground state where it leads |
| Board.Solved | source/bitzawolf/TileGrid.java:32-42 | the arrangement the constructor cuts: columns*rows cells, slot (0, 0) empty, and every tile in its home slot |
| Board.Cascade | source/bitzawolf/TileGrid.java:75-96 | a cascade ends with the empty slot on the clicked slot |
| Board.SolvedWellFormed | source/bitzawolf/TileGrid.java:32-42 | the arrangement the constructor cuts has exactly one empty cell at (0, 0), no tile with home (0, 0), and every tile at home |
| Board.StepWellFormed | source/bitzawolf/TileGrid.java:173-187 | a slide keeps exactly one empty cell, now at the slid-from slot |
| Board.CascadeWellFormed | source/bitzawolf/TileGrid.java:75-96 | a cascade keeps exactly one empty cell |
| Board.CascadePermutes | source/bitzawolf/TileGrid.java:75-96 | a cascade only rearranges the cells (same multiset) |
| Board.CascadeShifts | source/bitzawolf/TileGrid.java:75-96 | slot by slot: the clicked slot empties, each slot of the run takes its neighbour's tile from the clicked side, slots off the run keep theirs |
| Board.CascadeAdvance | source/bitzawolf/TileGrid.java:79-83 | each loop iteration's slide leaves the remaining cascade to the clicked slot unchanged |
| Board.StepUndo | source/bitzawolf/TileGrid.java:173-187 | sliding back into the slot just vacated restores the board |
| Board.CascadeSnoc | source/bitzawolf/TileGrid.java:79-84 | a cascade is the cascade to the slot before the target followed by the final slide |
| Board.CascadeUndo | source/bitzawolf/TileGrid.java:75-96 | cascading back to the old empty slot restores the board |
| Board.ClickCases | source/bitzawolf/TileGrid.java:62-96 | a click outside the grid, on the empty slot or off its row and column changes nothing; otherwise it cascades and the clicked slot becomes empty |
| Board.ClickUndo | source/bitzawolf/TileGrid.java:62-96 | clicking the previously empty slot undoes a click |
| Board.CompleteIffSolved | source/bitzawolf/TileGrid.java:235-243 | on a well-formed board, every tile at home holds exactly when the board is the solved arrangement |
| ShuffleWalk.Scan | source/bitzawolf/TileGrid.java:384-401 | the candidate list never holds the current or previous empty slot and stays on the scanned line |
| ShuffleWalk.ScanExact | source/bitzawolf/TileGrid.java:384-401 | the scan lists every slot of the line except the current one, in order |
| ShuffleWalk.Candidates | source/bitzawolf/TileGrid.java:384-401 | each possible move is inside the grid on the empty slot's row (after a vertical move) or column (otherwise), and is neither the current nor the previous empty slot |
| ShuffleWalk.CandidatesExact | source/bitzawolf/TileGrid.java:384-401 | there are exactly columns-1 (row) or rows-1 (column) candidates, so the random pick bound is never zero |
| ShuffleWalk.ShuffleStep | source/bitzawolf/TileGrid.java:403-424 | one shuffle move ends on a new slot of the scanned line, alternates direction, and pushes the move on the front of the reverse list |
| ShuffleWalk.ShuffleRun | source/bitzawolf/TileGrid.java:382-425 | the walk stays shaped and the direction flag tracks the parity of the move count |
| ShuffleWalk.WalkedNext | source/bitzawolf/TileGrid.java:382-425 | each pick indexes that iteration's candidate list and extends the walk by one move |
| ShuffleWalk.WalkedAll | source/bitzawolf/TileGrid.java:382-425 | after all picks the loop's state is the whole walk |
| ShuffleWalk.ShuffleRoundTrip | source/bitzawolf/TileGrid.java:374-426 | after the shuffle the reverse list has moves+1 entries, starts at the empty slot, ends at (0, 0), and clicking its entries from index 1 restores the starting board |
| ShuffleWalk.AlternatesNoBacktrack | source/bitzawolf/TileGrid.java:384-401 | moves alternating between row and column never return straight to the slot just left |
| ShuffleWalk.AlternatesCons | source/bitzawolf/TileGrid.java:403-404 | recording a move along the axis its number calls for keeps the list alternating |
| ShuffleWalk.ShuffleShape | source/bitzawolf/TileGrid.java:374-426 | the recorded moves alternate row, column, row, ... with no empty move and no immediate backtrack |
| ShuffleWalk.ShuffleReverseHead | source/bitzawolf/TileGrid.java:379-404 | the reverse list's first entry is the empty slot and its second the previous empty slot |
| Tiles.Heading | source/bitzawolf/Tile.java:51-62 | moveTo's velocity points at the destination at ANIM_SPEED, and is zero exactly when already there |
| Tiles.Advance | source/bitzawolf/Tile.java:81-110 | a coordinate moves by velocity*time, stops exactly on the destination once reached, never overshoots, and stops exactly when the distance is covered |
| Tiles.Tile.constructor | source/bitzawolf/Tile.java:17-25 | a new tile is at rest on its original slot at the given position |
| Tiles.Tile.IsInOriginalSlot | source/bitzawolf/Tile.java:30-33 | true exactly when the current slot is the original slot |
| Tiles.Tile.IsMoving | source/bitzawolf/Tile.java:35-38 | true exactly when the velocity is non-zero; a tile not moving is drawn on its destination |
| Tiles.Tile.MoveTo | source/bitzawolf/Tile.java:44-63 | sets the new slot and destination, keeps the position, heads toward the destination; moving exactly when not already there |
| Tiles.Tile.MoveInstantlyTo | source/bitzawolf/Tile.java:68-76 | slot, destination and position jump to the target; velocity untouched |
| Tiles.Tile.Update | source/bitzawolf/Tile.java:81-110 | each coordinate advances as Advance says; slot and destination unchanged; the animation invariant is kept |
| Tiles.Tile.StopAtTargetX | source/bitzawolf/Tile.java:88-97 | the x coordinate stops on its destination once it has reached or passed it, and the y coordinate is untouched |
| Tiles.Tile.StopAtTargetY | source/bitzawolf/Tile.java:99-108 | the y coordinate stops on its destination once it has reached or passed it, and the x coordinate is untouched |
| TileGrids.ViaSlotIndexAsWritten | source/bitzawolf/TileGrid.java:64-68 | the guards as written accept a slot exactly when x < tileWidth*columns and y < tileHeight*rows, and then read index x + y*columns |
| TileGrids.ViaSlotGuardLetsThrough | source/bitzawolf/TileGrid.java:64-68 | off-grid slots (-1, 1), (-1, 0) and (columns, 0) pass those guards and select another slot's cell or index -1 |
| TileGrids.MarginClickLetsThrough | source/bitzawolf/TileGrid.java:124-132 | a pixel in the left margin, px in (-2*tileWidth, -tileWidth], passes moveTile's guards, truncates to column -1, and on the second pixel row selects the cell of slot (columns - 1, 0) |
| TileGrids.CutTiles | source/bitzawolf/TileGrid.java:32-42 | the cutting loops put a fresh tile, at rest on its own slot's pixel position, in every cell but 0, which is null |
| TileGrids.TileGrid.constructor | source/bitzawolf/TileGrid.java:23-44 | tile size is the scaled size divided by the counts; the board is the shuffle walk from the solved board, and its reverse list replayed from index 1 solves it |
| TileGrids.TileGrid.CutValid | source/bitzawolf/TileGrid.java:32-42 | the freshly cut grid is valid, at rest, and the solved arrangement |
| TileGrids.TileGrid.TileAtOneCell | source/bitzawolf/TileGrid.java:180-186 | a tile occupies one cell only, so the exchange loop meets it once |
| TileGrids.TileGrid.GetEmptyPosition | source/bitzawolf/TileGrid.java:221-233 | the column-major scan finds the empty slot (never null on a valid grid) |
| TileGrids.TileGrid.GetTileFromSlotPosition | source/bitzawolf/TileGrid.java:210-216 | null past the end of the array; inside the grid, null exactly at the empty slot, else the tile whose current slot it is |
| TileGrids.TileGrid.ExchangeWithEmpty | source/bitzawolf/TileGrid.java:180-186 | the loop puts the tile in the null cell and nulls the tile's old cell, nothing else |
| TileGrids.TileGrid.MoveTileToEmpty | source/bitzawolf/TileGrid.java:173-187 | the board takes one slide; the moved tile is sent toward the old empty slot from where it is drawn; other tiles unchanged |
| TileGrids.TileGrid.MoveTileInstantlyToEmpty | source/bitzawolf/TileGrid.java:192-208 | the board takes one slide; the moved tile jumps to the old empty slot; other tiles unchanged |
| TileGrids.TileGrid.MoveTileViaSlot | source/bitzawolf/TileGrid.java:62-96 | the board becomes Click of the old board (with the in-grid guard, see Findings); tiles only get redirected, never jump; a click off the grid, on the empty slot or off its row and column leaves the array and every tile unchanged |
| TileGrids.TileGrid.SlideToward | source/bitzawolf/TileGrid.java:79-83 | one cascade slide leaves the remaining cascade unchanged |
| TileGrids.TileGrid.CascadeAlongRow | source/bitzawolf/TileGrid.java:75-85 | the row branch performs exactly the cascade to the clicked slot |
| TileGrids.TileGrid.CascadeAlongColumn | source/bitzawolf/TileGrid.java:86-96 | the column branch performs exactly the cascade to the clicked slot |
| TileGrids.TileGrid.TowardAlongRow | source/bitzawolf/TileGrid.java:79-81 | while the row loop has not reached the clicked slot, the slot it moves is the empty slot's neighbour toward the clicked slot |
| TileGrids.TileGrid.TowardAlongColumn | source/bitzawolf/TileGrid.java:90-92 | while the column loop has not reached the clicked slot, the slot it moves is the empty slot's neighbour toward the clicked slot |
| TileGrids.TileGrid.SlideAlongRow | source/bitzawolf/TileGrid.java:78-83 | the row loop leaves the cascade still to do unchanged and stops with the empty slot next to the clicked slot |
| TileGrids.TileGrid.SlideAlongColumn | source/bitzawolf/TileGrid.java:89-94 | the column loop leaves the cascade still to do unchanged and stops with the empty slot next to the clicked slot |
| TileGrids.TileGrid.MoveTile | source/bitzawolf/TileGrid.java:124-132 | pixels at or past the right or bottom edge do nothing; otherwise the click goes to the truncated-division slot (with the in-grid guard, see Findings); a click that is ignored leaves the array and every tile unchanged |
| TileGrids.TileGrid.IsComplete | source/bitzawolf/TileGrid.java:235-243 | true exactly when every tile is at home, which is exactly the solved board |
| TileGrids.TileGrid.IsNotMoving | source/bitzawolf/TileGrid.java:245-253 | true exactly when no tile moves; then every tile is drawn on its slot |
| TileGrids.TileGrid.GetReverseMoves | source/bitzawolf/TileGrid.java:270-276 | the copy equals the reverse-move list |
| TileGrids.TileGrid.Update | source/bitzawolf/TileGrid.java:356-361 | the board is unchanged and every tile's animation advances as Advance says |
| TileGrids.TileGrid.PossibleMoves | source/bitzawolf/TileGrid.java:384-401 | the scan loops build exactly the candidate list |
| TileGrids.TileGrid.SlideInstantlyToward | source/bitzawolf/TileGrid.java:409-418 | one instant slide leaves the remaining cascade unchanged, tiles at rest |
| TileGrids.TileGrid.SlideInstantly | source/bitzawolf/TileGrid.java:406-419 | the shuffle's slide loops perform exactly the cascade to the picked slot, without animating |
| TileGrids.TileGrid.SlideInstantlyAlongRow | source/bitzawolf/TileGrid.java:409-414 | the shuffle's row loop performs exactly the cascade to the picked slot, tiles at rest |
| TileGrids.TileGrid.SlideInstantlyAlongColumn | source/bitzawolf/TileGrid.java:415-420 | the shuffle's column loop performs exactly the cascade to the picked slot, tiles at rest |
| TileGrids.TileGrid.ShuffleMove | source/bitzawolf/TileGrid.java:384-424 | one loop iteration on the grid is one step of the shuffle walk |
| TileGrids.TileGrid.Shuffle | source/bitzawolf/TileGrid.java:374-426 | the grid ends as the shuffle walk from the old board, reverse list included, tiles at rest |
| Suggestions.CountsBelow | source/bitzawolf/TileGrid.java:329-334 | the counts listed lie in [3, hi) |
| Suggestions.RoomyCounts | source/bitzawolf/TileGrid.java:329-341 | the counting loop lists the counts 3..7 whose tiles are at least MIN_TILE_SIZE |
| Suggestions.Pairings | source/bitzawolf/TileGrid.java:343-348 | the nested loops list each column count with each row count, columns outermost |
| Suggestions.CreateSuggestions | source/bitzawolf/TileGrid.java:319-354 | the suggestions are the pairings, or None (null) when there are none |
| Suggestions.Suggest | source/bitzawolf/TileGrid.java:319-354 | createSuggestions' result: None (null) or a non-empty list; SuggestMember and SuggestNone state which sizes it holds and when it is None |
| Suggestions.CountsBelowMember | source/bitzawolf/TileGrid.java:329-334 | a count is listed exactly when it is in range and roomy |
| Suggestions.CountsBelowIncreasing | source/bitzawolf/TileGrid.java:329-334 | the counts are strictly increasing |
| Suggestions.CombineMember | source/bitzawolf/TileGrid.java:343-348 | a size is paired exactly when both its counts are listed |
| Suggestions.CombineLength | source/bitzawolf/TileGrid.java:343-348 | there are (number of column counts) * (number of row counts) pairings |
| Suggestions.CombineOrdered | source/bitzawolf/TileGrid.java:343-348 | pairings come in strictly increasing column-major order |
| Suggestions.FewerTilesRoomier | source/bitzawolf/TileGrid.java:329-341 | if c tiles are roomy then so are fewer |
| Suggestions.SuggestMember | source/bitzawolf/TileGrid.java:319-354 | a size is suggested exactly when both counts are in [3, 7] and both tile sizes are at least MIN_TILE_SIZE |
| Suggestions.SuggestOrdered | source/bitzawolf/TileGrid.java:319-354 | suggestions are in strictly increasing column-major order |
| Suggestions.CountsEmpty | source/bitzawolf/TileGrid.java:329-341 | no count qualifies exactly when 3 tiles are already too small |
| Suggestions.SuggestNone | source/bitzawolf/TileGrid.java:350-351 | null exactly when no column count or no row count qualifies, i.e. when 3 tiles are too small either way |
| MenuReplay.ReplayBackground | source/bitzawolf/MainMenuLoop.java:146-160 | clicking the reverse list from index 1 until it runs out or the grid is complete ends finished on the solved board |
| MenuReplay.BackgroundPuzzle | source/bitzawolf/MainMenuLoop.java:86-98 | the shuffled 4 x 3 background always comes out solved |
| Int32.Add | source/convcomm/engine/input/VirtualKey.java:92 | int addition: exact when in range, otherwise congruent modulo 2^32 |
| VirtualKeys.VirtualKey.constructor | source/convcomm/engine/input/VirtualKey.java:47-52 | name and behavior set, key reset |
| VirtualKeys.VirtualKey.RapidFireKey | source/convcomm/engine/input/VirtualKey.java:39-42 | a reset RAPID_FIRE key |
| VirtualKeys.VirtualKey.Reset | source/convcomm/engine/input/VirtualKey.java:62-66 | released with no presses |
| VirtualKeys.VirtualKey.Press | source/convcomm/engine/input/VirtualKey.java:88-95 | adds n presses (wrapping) and holds, unless waiting for release |
| VirtualKeys.VirtualKey.PressOnce | source/convcomm/engine/input/VirtualKey.java:80-83 | press(1) |
| VirtualKeys.VirtualKey.Release | source/convcomm/engine/input/VirtualKey.java:100-103 | released, count kept |
| VirtualKeys.VirtualKey.Tap | source/convcomm/engine/input/VirtualKey.java:71-75 | press then release |
| VirtualKeys.VirtualKey.GetAmount | source/convcomm/engine/input/VirtualKey.java:116-130 | returns the count; consumes it when released, or when held with INITIAL_PRESS_ONLY, which then waits for release |
| VirtualKeys.VirtualKey.IsPressed | source/convcomm/engine/input/VirtualKey.java:108-111 | true exactly when the count was non-zero, with getAmount's effect |
| VirtualKeys.OperationsKeepConsistent | source/convcomm/engine/input/VirtualKey.java:88-130 | a key waits for release only with no count and INITIAL_PRESS_ONLY, under every operation |
| VirtualKeys.CheckReports | source/convcomm/engine/input/VirtualKey.java:116-130 | a check reports the count and leaves 0, except a held RAPID_FIRE key, which keeps it |
| VirtualKeys.PressCounts | source/convcomm/engine/input/VirtualKey.java:88-95 | without overflow, pressing adds exactly n |
| VirtualKeys.ReleaseKeepsCount | source/convcomm/engine/input/VirtualKey.java:100-130 | presses before a release are still reported by the next check, which then clears them |
| VirtualKeys.TapAddsOne | source/convcomm/engine/input/VirtualKey.java:71-75 | a tap adds one press and leaves the key released |
| VirtualKeys.RapidFireRepeats | source/convcomm/engine/input/VirtualKey.java:116-130 | a held RAPID_FIRE key reports the same count on every check |
| VirtualKeys.InitialPressOnlyOnce | source/convcomm/engine/input/VirtualKey.java:116-130 | a held INITIAL_PRESS_ONLY key reports once, then ignores presses and reports 0 until released |
| Animations.FrameFrom | source/convcomm/engine/graphics/Animation.java:61-62 | the frame search stops at the first frame from its start whose end time is not before the clock |
| Animations.Animation.constructor | source/convcomm/engine/graphics/Animation.java:20-25 | no frames, zero total, clock and index 0 |
| Animations.Animation.Start | source/convcomm/engine/graphics/Animation.java:30-34 | clock and frame index back to 0, frames kept |
| Animations.Animation.AddFrame | source/convcomm/engine/graphics/Animation.java:41-45 | the total grows by the duration and the new frame ends at the new total |
| Animations.PrefixSumsSnoc | source/convcomm/engine/graphics/Animation.java:41-45 | appending a frame that ends at the old total plus its duration keeps every frame's end time equal to the sum of the durations up to it |
| Animations.Animation.Update | source/convcomm/engine/graphics/Animation.java:51-64 | with two or more frames the clock advances and wraps modulo the total (restarting the search at frame 0), stays below the total, and the index is the first frame not yet ended |
| Animations.Animation.SeekFrame | source/convcomm/engine/graphics/Animation.java:61-62 | the search loop stops on the first frame, from the current one on, whose end time the clock has not passed; nothing else changes |
| Animations.Animation.GetImage | source/convcomm/engine/graphics/Animation.java:70-76 | None (null) exactly without frames, else the current frame's image |
| Animations.EndTimesOrdered | source/convcomm/engine/graphics/Animation.java:41-45 | with non-negative durations end times never decrease and the last is the total |
| Animations.SumMonotone | source/convcomm/engine/graphics/Animation.java:41-45 | a prefix of non-negative durations sums to between 0 and the total |
| FPSCounters.FPSCounter.constructor | source/convcomm/engine/util/FPSCounter.java:12-17 | rate 0, frames 0, timer 1000 |
| FPSCounters.FPSCounter.Reset | source/convcomm/engine/util/FPSCounter.java:19-24 | rate 0, frames 0, timer 1000 |
| FPSCounters.FPSCounter.Update | source/convcomm/engine/util/FPSCounter.java:26-36 | one tick; a timer within a second stays within a second for a frame time in [0, 1000] |
| FPSCounters.TickRollsOver | source/convcomm/engine/util/FPSCounter.java:26-36 | the rate is reported, as the frames including this one, exactly when the elapsed time uses up the timer; otherwise the frame is counted |
| FPSCounters.RunInSecond | source/convcomm/engine/util/FPSCounter.java:26-36 | any run of frame times in [0, 1000] keeps the timer in (0, 1000] |
| FPSCounters.RunWithinSecond | source/convcomm/engine/util/FPSCounter.java:26-36 | until the elapsed times use up the timer, the rate stays and frames count one per update |
| JavaBytes.ToByte | source/convcomm/engine/audio/SoundFilter.java:59-60 | the (byte) cast keeps the value modulo 256 |
| JavaBytes.Unsigned | source/convcomm/engine/audio/SoundFilter.java:43 | b & 0xFF is in [0, 256) and congruent to b modulo 256 |
| JavaBytes.ToShort | source/convcomm/engine/audio/SoundFilter.java:43 | the (short) cast keeps the value modulo 65536 |
| SoundFilters.EncodeDecode | source/convcomm/engine/audio/SoundFilter.java:41-70 | decoding the two bytes a sample is written as gives the sample back |
| SoundFilters.DecodeEncode | source/convcomm/engine/audio/SoundFilter.java:41-70 | writing back a decoded sample gives the same two bytes |
| SoundFilters.GetLeftSample | source/convcomm/engine/audio/SoundFilter.java:41-44 | the left sample is the one whose low and high bytes are bytes position and position + 1 |
| SoundFilters.GetRightSample | source/convcomm/engine/audio/SoundFilter.java:49-52 | the right sample is the one whose low and high bytes are bytes position + 2 and position + 3 |
| SoundFilters.SetLeftSample | source/convcomm/engine/audio/SoundFilter.java:57-61 | writes bytes position and position + 1 only, and the left sample reads back |
| SoundFilters.SetRightSample | source/convcomm/engine/audio/SoundFilter.java:66-70 | writes bytes position + 2 and position + 3 only, and the right sample reads back |
| SoundFilters.SetSample | source/convcomm/engine/audio/SoundFilter.java:75-79 | both samples read back and no byte outside the frame changes |
| SoundManagers.StereoIndex | source/convcomm/engine/audio/SoundManager.java:321-332 | byte d of stereo frame k is mono byte 2k + d mod 2 |
| SoundManagers.StereoFrame | source/convcomm/engine/audio/SoundManager.java:321-332 | frame k holds mono sample k on the left and on the right |
| SoundManagers.ConvertToStereo | source/convcomm/engine/audio/SoundManager.java:321-332 | the first 2 * (mono length) stereo bytes are the doubled mono pairs; later bytes and the mono array are untouched |
| SoundManagers.WriteFrame | source/convcomm/engine/audio/SoundManager.java:326-329 | the four writes put the low byte at j and j + 2 and the high byte at j + 1 and j + 3, and change no other byte |
| SoundManagers.FrameStep | source/convcomm/engine/audio/SoundManager.java:324-331 | one pass of the loop extends the converted prefix by one frame and leaves the bytes after it as they were |
| SoundManagers.ConvertedFrame | source/convcomm/engine/audio/SoundManager.java:326-329 | after conversion, the filter's getters read the same sample left and right: the mono sample |
| LoopingStreams.CycleIndex | source/convcomm/engine/audio/LoopingByteInputStream.java:30-38 | byte t of a cyclic read is source byte (from + t) mod count |
| LoopingStreams.CycleExtend | source/convcomm/engine/audio/LoopingByteInputStream.java:32-35 | a chunk that continues where the cycle stands extends it |
| LoopingStreams.CycleWraps | source/convcomm/engine/audio/LoopingByteInputStream.java:36-37 | a read past the end of the source continues from the mark, 0 |
| LoopingStreams.CycleWhole | source/convcomm/engine/audio/LoopingByteInputStream.java:30-38 | one full pass from 0 reads the source itself |
| LoopingStreams.LoopingByteInputStream.constructor | source/convcomm/engine/audio/LoopingByteInputStream.java:16-20 | the array is shared, not copied; position 0, open |
| LoopingStreams.LoopingByteInputStream.ReadChunk | source/convcomm/engine/audio/LoopingByteInputStream.java:32 | the inherited read: -1 at the end, else copies min(len, remaining) bytes and advances |
| LoopingStreams.LoopingByteInputStream.Reset | source/convcomm/engine/audio/LoopingByteInputStream.java:37 | the position goes back to the mark |
| LoopingStreams.LoopingByteInputStream.Read | source/convcomm/engine/audio/LoopingByteInputStream.java:25-40 | -1 when closed, 0 for a non-positive length, else exactly length bytes taken cyclically from the position into buffer[offset..offset+length) only |
| LoopingStreams.LoopingByteInputStream.ReadLooping | source/convcomm/engine/audio/LoopingByteInputStream.java:29-39 | the loop delivers all length bytes and leaves the position congruent to old position + length |
| LoopingStreams.LoopingByteInputStream.ReadStep | source/convcomm/engine/audio/LoopingByteInputStream.java:32-37 | each pass either delivers bytes continuing the cycle or resets an exhausted source |
| LoopingStreams.ChunkFilled | source/convcomm/engine/audio/LoopingByteInputStream.java:32-35 | bytes read from where the position stands continue the cycle in the buffer, and the position moves with the count |
| LoopingStreams.ResetFilled | source/convcomm/engine/audio/LoopingByteInputStream.java:36-37 | a reset of an exhausted stream keeps the bytes delivered, and position 0 stands where the cycle continues |
| LoopingStreams.LoopingByteInputStream.Close | source/convcomm/engine/audio/LoopingByteInputStream.java:42-46 | the stream is closed, so reads return -1 |

## Left out

- Images, scaling (`scaleImage`, `getOriginalImageScaled`, `getScaledImageWidth/Height`), `BufferedImage` slicing and every `draw` method: graphics, not logic. The model cuts tiles without pixels.
- TileGrids.TileGrid.constructor: requires `scaledWidth >= columns` and `scaledHeight >= rows`, because `BufferedImage` rejects a zero tile size, which the model cannot reach otherwise.
- TileGrids.TileGrid.constructor: requires at least 2 columns and 2 rows. On a grid 1 wide or 1 tall, shuffle's scan finds no candidate and `r.nextInt(0)` (TileGrid.java:406) throws IllegalArgumentException; the model does not represent that exception. Every caller passes 3 to 7 of each (TileGrid.java:329-339) or 4 x 3 (MainMenuLoop.java:89). The `Fits` requirement only says each pick lies in [0, n), as `nextInt(n)` returns.
- `createSuggestions(File)`, `createSuggestions(URL)` and the image scaling inside `createSuggestions(ImageIcon)`: the model takes the scaled width and height directly.
- `shuffleOld`: not called anywhere.
- The warning `println` of `moveTileInstantlyToEmpty`: console output only.
- `java.util.Random`: replaced by the `picks` input, which also fixes the random image index of `resetBackgroundPuzzle`.
- MainMenuLoop's Swing panels, padding arithmetic, the in-game timer and the animation frames between background clicks. `ReplayBackground` performs the clicks back to back, because the waits for `isNotMoving` only let tiles finish animating.
- `synchronized` and all threading: the model is sequential.
- Tiles.Tile.Update: Java float rounding is not modelled. Positions are exact reals.
- Animations.Animation.Update: requires a positive total once there are two or more frames. Java would throw an ArithmeticException on `% 0`, and a negative total is not a meaningful animation. Java's `long` clock is modelled without overflow.
- FPSCounters.FPSCounter.Update: the `long` timer is modelled without overflow; the `int` frame count wraps as in Java.
- `FPSCounter.draw`, `getLastFPS` (the field itself), `VirtualKey.getName`, `Tile.getCurrentSlot/getOriginalSlot`: plain getters or drawing.
- `SoundFilter.filter` and `reset`/`getRemainingSize`: abstract or trivial, with no implementation to model.
- The rest of SoundManager: threads, locks, `javax.sound` lines and file loading.
- SoundManagers.ConvertToStereo: requires distinct arrays, an even mono length and a stereo array at least twice as long. Its caller allocates exactly twice the length; an odd length would throw partway.
- LoopingStreams.LoopingByteInputStream.Read: requires the destination not to be the source array. It also requires a non-empty source when an open stream is asked for bytes, since the Java loop then never ends. Index exceptions of the inherited read are preconditions.
- `ByteArrayInputStream.mark`, `skip`, `available` and the single-byte `read()`: not used by the looping stream.
- The index exceptions of the sample helpers and the tile array: modelled as preconditions.

## Findings

| source | as written | input that shows it | evidently intended | confidence | as-written member | corrected member |
|---|---|---|---|---|---|---|
| source/bitzawolf/TileGrid.java:64-68 | `moveTileViaSlot` guards the slot numbers with `slotPosX >= tileWidth * columns` and `slotPosY >= tileHeight * rows`, comparing slots to pixel extents and never checking for negatives; `moveTile` (TileGrid.java:124-132) likewise has no lower bound and passes truncated negative slots on | slot (-1, 1) passes and reads the cell of slot (columns-1, 0); slot (-1, 0) reads index -1; with tiles 2+ pixels wide, slot (columns, 0) reads the cell of slot (0, 1); a click in the left margin (SlidyPuzzleLoop.java:146 subtracts the padding) at px in (-2*tileWidth, -tileWidth] on the second pixel row reaches slot (-1, 1) | clicks on slots outside the grid are ignored: guard 0 <= x < columns and 0 <= y < rows | not executed | TileGrids.ViaSlotIndexAsWritten, TileGrids.ViaSlotGuardLetsThrough, TileGrids.MarginClickLetsThrough | TileGrids.TileGrid.MoveTileViaSlot, TileGrids.TileGrid.MoveTile |
