/**
 * The main menu's background puzzle (bitzawolf/MainMenuLoop.java): a 4 x 3
 * grid is built and shuffled, and then solved on screen by clicking the
 * slots of its reverse-move list from index 1 on, one click each time the
 * tiles come to rest, until the list runs out or the grid is complete. The
 * animation frames between clicks only move tiles on screen and are left out.
 */
module MenuReplay {
  import opened Slots
  import opened Board
  import opened ShuffleWalk
  import opened TileGrids

  /** The background click loop: the clicks undo the shuffle, so it ends on the solved board. */
  method ReplayBackground(grid: TileGrid) returns (finished: bool)
    requires grid.Valid() && |grid.reverseMoves| >= 1
    requires Replay(grid.columns, grid.rows, grid.Model(), grid.reverseMoves[1..]) == Solved(grid.columns, grid.rows)
    modifies grid, grid.tiles, grid.TileSet
    ensures grid.Valid() && finished
    ensures grid.Model() == Solved(grid.columns, grid.rows)
  {
    var moves := grid.GetReverseMoves();
    var index := 1;
    finished := false;
    while !finished
      invariant grid.Valid() && 1 <= index <= |moves|
      invariant Replay(grid.columns, grid.rows, grid.Model(), moves[index..]) == Solved(grid.columns, grid.rows)
      invariant finished ==> grid.Model() == Solved(grid.columns, grid.rows)
      decreases |moves| - index, !finished
    {
      if index == |moves| {
        finished := true;
        return;
      }
      var useMe := moves[index];
      assert moves[index..][1..] == moves[index + 1..];
      index := index + 1;
      grid.MoveTileViaSlot(useMe.x, useMe.y);
      finished := grid.IsComplete();
      if finished {
        grid.ModelWellFormed();
        CompleteIffSolved(grid.columns, grid.rows, grid.Model());
      }
    }
  }

  /** resetBackgroundPuzzle followed by the click loop: the shuffled background always comes out solved. */
  method BackgroundPuzzle(scaledWidth: int, scaledHeight: int, picks: seq<int>) returns (grid: TileGrid, finished: bool)
    requires scaledWidth >= 4 && scaledHeight >= 3
    requires |picks| == SHUFFLE_MOVES && Fits(4, 3, picks)
    ensures grid.Valid() && finished && grid.Model() == Solved(4, 3)
  {
    grid := new TileGrid(4, 3, scaledWidth, scaledHeight, picks);
    finished := ReplayBackground(grid);
  }
}
