/**
 * The play area (bitzawolf/TileGrid.java): a columns x rows array of tiles with
 * one empty (null) cell, the moves a player makes on it, the shuffle that
 * starts a game, and the reverse-move list that undoes the shuffle. Every
 * operation is proved against the board functions of module Board, read off
 * the array by Model().
 */
module TileGrids {
  import opened Options
  import opened Slots
  import opened Board
  import opened ShuffleWalk
  import opened Tiles

  /** The pixel position of a slot's top-left corner: the int product, converted to float. */
  function Pixel(tileWidth: int, tileHeight: int, s: Slot): Vec
  {
    Vec((s.x * tileWidth) as real, (s.y * tileHeight) as real)
  }

  /** The board a tile array holds: an empty cell for null, else the tile's original slot. */
  function CellsOf(ts: seq<Tile?>): (r: seq<Cell>)
    ensures |r| == |ts|
    ensures forall i :: 0 <= i < |ts| ==> (r[i] == Empty <==> ts[i] == null)
    ensures forall i :: 0 <= i < |ts| && ts[i] != null ==> r[i] == Piece(ts[i].originalSlot)
  {
    seq(|ts|, i requires 0 <= i < |ts| => if ts[i] == null then Empty else Piece(ts[i].originalSlot))
  }

  /** A freshly cut tile: at rest on slot s, drawn at that slot's pixel position. */
  ghost predicate Built(t: Tile, s: Slot, tileWidth: int, tileHeight: int)
    reads t
  {
    && t.originalSlot == s && t.currentSlot == s
    && t.position == Pixel(tileWidth, tileHeight, s) && t.moveLocation == Pixel(tileWidth, tileHeight, s)
    && t.velocity == Vec(0.0, 0.0)
  }

  /**
   * Since the two-state reference point no tile has moved on screen, and each
   * one is either where it was headed or has been sent on by moveTo.
   */
  twostate predicate Redirected(ts: set<Tile>)
    reads ts
  {
    forall t :: t in ts ==>
      && t.position == old(t.position)
      && ((t.currentSlot == old(t.currentSlot) && t.moveLocation == old(t.moveLocation) && t.velocity == old(t.velocity))
          || t.velocity == Vec(Heading(t.position.x, t.moveLocation.x), Heading(t.position.y, t.moveLocation.y)))
  }

  /** The clicks moveTileViaSlot ignores: off the grid, on the empty slot, or sharing neither row nor column with it. */
  predicate Ignored(columns: int, rows: int, e: Slot, s: Slot)
  {
    !InGrid(columns, rows, s) || s == e || !Aligned(e, s)
  }

  /**
   * The array index moveTileViaSlot reads for slot (x, y) as the code is
   * written: None when one of its two guards returns, else x + y * columns.
   * The guards compare slot numbers with the grid's pixel extent and have no
   * lower bound, so off-grid slots get through.
   */
  function ViaSlotIndexAsWritten(columns: int, rows: int, tileWidth: int, tileHeight: int, x: int, y: int): (r: Option<int>)
    ensures r.Some? <==> x < tileWidth * columns && y < tileHeight * rows
    ensures r.Some? ==> r.value == Index(columns, Slot(x, y))
  {
    if x >= tileWidth * columns then None
    else if y >= tileHeight * rows then None
    else Some(x + y * columns)
  }

  /**
   * Slot (-1, 1), off the grid, passes the guards and selects the cell of slot
   * (columns - 1, 0), a different slot; slot (-1, 0) selects index -1, outside
   * the array; slot (columns, 0), off the grid once tiles are 2 pixels wide,
   * selects the cell of slot (0, 1).
   */
  lemma ViaSlotGuardLetsThrough(columns: int, rows: int, tileWidth: int, tileHeight: int)
    requires columns >= 1 && rows >= 2 && tileWidth >= 2 && tileHeight >= 1
    ensures !InGrid(columns, rows, Slot(-1, 1))
    ensures ViaSlotIndexAsWritten(columns, rows, tileWidth, tileHeight, -1, 1) == Some(columns - 1)
    ensures SlotAt(columns, columns - 1) == Slot(columns - 1, 0)
    ensures ViaSlotIndexAsWritten(columns, rows, tileWidth, tileHeight, -1, 0) == Some(-1)
    ensures !InGrid(columns, rows, Slot(columns, 0))
    ensures ViaSlotIndexAsWritten(columns, rows, tileWidth, tileHeight, columns, 0) == Some(columns)
    ensures SlotAt(columns, columns) == Slot(0, 1)
  {
    MulMonotone(1, tileWidth, columns);
    MulMonotone(1, tileHeight, rows);
    DivModUnique(columns - 1, columns, 0, columns - 1);
    DivModUnique(columns, columns, 1, 0);
  }

  /**
   * mouseClicked subtracts the padding, so a click in the left margin, with px
   * in (-2 * tileWidth, -tileWidth], reaches moveTile. It passes moveTile's two
   * guards, which have no lower bound either, and truncating division makes it
   * column -1; on the second row of pixels the as-written slot guards then
   * select the cell of slot (columns - 1, 0).
   */
  lemma MarginClickLetsThrough(columns: int, rows: int, tileWidth: int, tileHeight: int, px: int, py: int)
    requires columns >= 1 && rows >= 2 && tileWidth >= 1 && tileHeight >= 1
    requires -2 * tileWidth < px <= -tileWidth && tileHeight <= py < 2 * tileHeight
    ensures px < tileWidth * columns && py < tileHeight * rows
    ensures JavaDiv(px, tileWidth) == -1 && JavaDiv(py, tileHeight) == 1
    ensures !InGrid(columns, rows, Slot(JavaDiv(px, tileWidth), JavaDiv(py, tileHeight)))
    ensures ViaSlotIndexAsWritten(columns, rows, tileWidth, tileHeight, JavaDiv(px, tileWidth), JavaDiv(py, tileHeight))
      == Some(columns - 1)
  {
    MulMonotone(1, columns, tileWidth);
    MulMonotone(2, rows, tileHeight);
    DivModUnique(-px, tileWidth, 1, -px - tileWidth);
    DivModUnique(py, tileHeight, 1, py - tileHeight);
  }

  /**
   * The constructor's cutting loops: one tile per slot, row by row, each at
   * rest at its slot's pixel position; then the top-left cell is emptied.
   */
  method CutTiles(columns: int, rows: int, tileWidth: int, tileHeight: int) returns (a: array<Tile?>)
    requires columns >= 1 && rows >= 1
    ensures fresh(a) && a.Length == columns * rows && a[0] == null
    ensures forall k :: 0 < k < a.Length ==>
      a[k] != null && fresh(a[k]) && Built(a[k], SlotAt(columns, k), tileWidth, tileHeight)
  {
    IndexingHolds(columns, rows);
    a := new Tile?[columns * rows];
    for row := 0 to rows
      invariant forall s :: InGrid(columns, rows, s) && s.y < row ==>
        a[Index(columns, s)] != null && fresh(a[Index(columns, s)])
        && Built(a[Index(columns, s)], s, tileWidth, tileHeight)
    {
      for column := 0 to columns
        invariant forall s :: InGrid(columns, rows, s) && (s.y < row || (s.y == row && s.x < column)) ==>
          a[Index(columns, s)] != null && fresh(a[Index(columns, s)])
          && Built(a[Index(columns, s)], s, tileWidth, tileHeight)
      {
        assert InGrid(columns, rows, Slot(column, row));
        a[column + row * columns] := new Tile(column, row, Pixel(tileWidth, tileHeight, Slot(column, row)));
      }
    }
    a[0] := null;
    forall k | 0 < k < a.Length
      ensures a[k] != null && fresh(a[k]) && Built(a[k], SlotAt(columns, k), tileWidth, tileHeight)
    {
      assert Index(columns, SlotAt(columns, k)) == k;
    }
  }

  class TileGrid {
    const columns: int
    const rows: int
    const tileWidth: int
    const tileHeight: int
    const tiles: array<Tile?>
    var reverseMoves: seq<Slot>
    /** The slot whose array cell is null. */
    ghost var empty: Slot
    /** The tiles on the board (every non-null array cell). */
    ghost const TileSet: set<Tile>

    /**
     * Exactly one cell is null, the one at the empty slot; every tile sits at
     * the cell of its current slot, animates validly toward that slot's pixel
     * position, and was not cut from slot (0, 0), which the constructor empties.
     */
    ghost predicate Valid()
      reads this`empty, tiles, TileSet
    {
      && Indexing(columns, rows)
      && tileWidth >= 1 && tileHeight >= 1
      && tiles.Length == columns * rows
      && InGrid(columns, rows, empty)
      && (forall i :: 0 <= i < tiles.Length ==> (tiles[i] == null <==> i == Index(columns, empty)))
      && (forall i :: 0 <= i < tiles.Length && tiles[i] != null ==>
            tiles[i] in TileSet && tiles[i].currentSlot == SlotAt(columns, i))
      && (forall t :: t in TileSet ==>
            && InGrid(columns, rows, t.currentSlot) && tiles[Index(columns, t.currentSlot)] == t
            && t.originalSlot != Slot(0, 0) && t.Valid()
            && t.moveLocation == Pixel(tileWidth, tileHeight, t.currentSlot))
    }

    /** The arrangement of the board. */
    ghost function Model(): Board
      reads this`empty, tiles
    {
      Board(CellsOf(tiles[..]), empty)
    }

    /** Every tile is at rest (the shuffle moves tiles without animating them). */
    ghost predicate AtRest()
      reads TileSet
    {
      forall t :: t in TileSet ==> t.velocity == Vec(0.0, 0.0)
    }

    /**
     * Cuts a scaledWidth x scaledHeight image into columns x rows tiles, empties
     * the top-left slot and shuffles; picks stands for the shuffle's random draws.
     * The reverse-move list then leads back to the solved board.
     */
    constructor (columns: int, rows: int, scaledWidth: int, scaledHeight: int, picks: seq<int>)
      requires columns >= 2 && rows >= 2 && scaledWidth >= columns && scaledHeight >= rows
      requires |picks| == SHUFFLE_MOVES && Fits(columns, rows, picks)
      ensures Valid() && AtRest() && fresh(tiles) && fresh(TileSet)
      ensures this.columns == columns && this.rows == rows
      ensures tileWidth == scaledWidth / columns && tileHeight == scaledHeight / rows
      ensures var w := ShuffleRun(columns, rows, Start(Solved(columns, rows)), picks);
        Model() == w.board && reverseMoves == w.reverseMoves
      ensures |reverseMoves| == SHUFFLE_MOVES + 1 && reverseMoves[0] == empty
      ensures Replay(columns, rows, Model(), reverseMoves[1..]) == Solved(columns, rows)
    {
      this.columns := columns;
      this.rows := rows;
      tileWidth := scaledWidth / columns;
      tileHeight := scaledHeight / rows;
      if scaledWidth / columns < 1 {
        MulMonotone(scaledWidth / columns, 0, columns);
      }
      if scaledHeight / rows < 1 {
        MulMonotone(scaledHeight / rows, 0, rows);
      }
      IndexingHolds(columns, rows);
      var a := CutTiles(columns, rows, scaledWidth / columns, scaledHeight / rows);
      tiles := a;
      TileSet := set t: Tile | t in a[..];
      empty := Slot(0, 0);
      reverseMoves := [];
      new;
      CutValid();
      assert forall t :: t in TileSet ==> fresh(t);
      SolvedWellFormed(columns, rows);
      ShuffleRoundTrip(columns, rows, Model(), picks);
      Shuffle(picks);
    }

    /** The freshly cut grid is valid, at rest, and solved. */
    lemma CutValid()
      requires Indexing(columns, rows) && tileWidth >= 1 && tileHeight >= 1
      requires tiles.Length == columns * rows && tiles[0] == null && empty == Slot(0, 0)
      requires forall k :: 0 < k < tiles.Length ==>
        tiles[k] != null && Built(tiles[k], SlotAt(columns, k), tileWidth, tileHeight)
      requires TileSet == set t: Tile | t in tiles[..]
      ensures Valid() && AtRest() && Model() == Solved(columns, rows)
    {
      assert Index(columns, empty) == 0;
      forall t | t in TileSet
        ensures InGrid(columns, rows, t.currentSlot) && tiles[Index(columns, t.currentSlot)] == t
        ensures t.originalSlot != Slot(0, 0)
      {
        var k :| 0 <= k < tiles.Length && tiles[k] == t;
        assert Index(columns, SlotAt(columns, k)) == k;
      }
      assert Model().cells == Solved(columns, rows).cells;
    }

    lemma ModelWellFormed()
      requires Valid()
      ensures WellFormed(columns, rows, Model()) && NoHomeAtOrigin(Model())
    {
    }

    /** A tile occupies exactly one cell of the array. */
    lemma TileAtOneCell(t: Tile, i: int)
      requires Valid() && 0 <= i < tiles.Length && tiles[i] == t
      ensures forall k :: 0 <= k < tiles.Length && tiles[k] == t ==> k == i
    {
      forall k | 0 <= k < tiles.Length && tiles[k] == t
        ensures k == i
      {
        assert Index(columns, SlotAt(columns, k)) == k;
        assert Index(columns, SlotAt(columns, i)) == i;
      }
    }

    /** Scans the columns, each from the top, for the null cell. */
    method GetEmptyPosition() returns (r: Option<Slot>)
      requires Valid()
      ensures r == Some(empty)
    {
      assert SlotAt(columns, Index(columns, empty)) == empty;
      var x := 0;
      while x < columns
        invariant 0 <= x <= columns && x <= empty.x
      {
        var y := 0;
        while y < rows
          invariant 0 <= y <= rows
          invariant x == empty.x ==> y <= empty.y
        {
          var i := Index(columns, Slot(x, y));
          assert SlotAt(columns, i) == Slot(x, y);
          if tiles[i] == null {
            return Some(Slot(x, y));
          }
          y := y + 1;
        }
        x := x + 1;
      }
      return None;
    }

    /** The tile in the cell of slot (x, y); null past the end of the array. */
    function GetTileFromSlotPosition(x: int, y: int): (r: Tile?)
      reads tiles
      requires Index(columns, Slot(x, y)) >= 0
      ensures Index(columns, Slot(x, y)) >= tiles.Length ==> r == null
      ensures Valid() && InGrid(columns, rows, Slot(x, y)) ==>
        (r == null <==> Slot(x, y) == empty) && (r != null ==> r.currentSlot == Slot(x, y))
    {
      var index := Index(columns, Slot(x, y));
      if index >= tiles.Length then null else tiles[index]
    }

    /**
     * The exchange loop of moveTileToEmpty and moveTileInstantlyToEmpty: the
     * null cell receives sel and sel's cell becomes null.
     */
    method ExchangeWithEmpty(sel: Tile, ghost iSel: int, ghost iEmpty: int)
      requires 0 <= iSel < tiles.Length && tiles[iSel] == sel
      requires forall k :: 0 <= k < tiles.Length && tiles[k] == sel ==> k == iSel
      requires 0 <= iEmpty < tiles.Length
      requires forall k :: 0 <= k < tiles.Length ==> (tiles[k] == null <==> k == iEmpty)
      modifies tiles
      ensures tiles[..] == old(tiles[..])[iEmpty := sel][iSel := null]
    {
      var i := 0;
      while i < tiles.Length
        invariant 0 <= i <= tiles.Length
        invariant forall k :: 0 <= k < i ==>
          tiles[k] == (if old(tiles[k]) == null then sel else if old(tiles[k]) == sel then null else old(tiles[k]))
        invariant forall k :: i <= k < tiles.Length ==> tiles[k] == old(tiles[k])
      {
        if tiles[i] == null {
          tiles[i] := sel;
        } else if tiles[i] == sel {
          tiles[i] := null;
        }
        i := i + 1;
      }
      assert tiles[..] == old(tiles[..])[iEmpty := sel][iSel := null];
    }

    /** Sends the tile at slot (x, y) animating into the empty slot. */
    method MoveTileToEmpty(x: int, y: int)
      requires Valid() && InGrid(columns, rows, Slot(x, y)) && Slot(x, y) != empty
      modifies this, tiles, TileSet
      ensures Valid()
      ensures Model() == Step(columns, rows, old(Model()), Slot(x, y))
      ensures reverseMoves == old(reverseMoves)
      ensures var t := old(tiles[Index(columns, Slot(x, y))]);
        t != null && t in TileSet && t.currentSlot == old(empty) && t.position == old(t.position) && t.Retargeted()
      ensures forall t :: t in TileSet && t != old(tiles[Index(columns, Slot(x, y))]) ==> unchanged(t)
    {
      var e := GetEmptyPosition();
      var emptyPos := e.value;
      var sel := GetTileFromSlotPosition(x, y);
      ghost var iSel, iEmpty := Index(columns, Slot(x, y)), Index(columns, emptyPos);
      TileAtOneCell(sel, iSel);
      var p := Pixel(tileWidth, tileHeight, emptyPos);
      sel.MoveTo(p.x, p.y, emptyPos);
      ExchangeWithEmpty(sel, iSel, iEmpty);
      empty := Slot(x, y);
      assert SlotAt(columns, iSel) == Slot(x, y) && SlotAt(columns, iEmpty) == emptyPos;
    }

    /** Puts the tile at slot (x, y) into the empty slot without animating. */
    method MoveTileInstantlyToEmpty(x: int, y: int)
      requires Valid() && InGrid(columns, rows, Slot(x, y)) && Slot(x, y) != empty
      modifies this, tiles, TileSet
      ensures Valid()
      ensures Model() == Step(columns, rows, old(Model()), Slot(x, y))
      ensures reverseMoves == old(reverseMoves)
      ensures var t := old(tiles[Index(columns, Slot(x, y))]);
        t != null && t in TileSet && t.currentSlot == old(empty) && t.position == t.moveLocation
        && t.velocity == old(t.velocity)
      ensures forall t :: t in TileSet && t != old(tiles[Index(columns, Slot(x, y))]) ==> unchanged(t)
    {
      var e := GetEmptyPosition();
      var emptyPos := e.value;
      var sel := GetTileFromSlotPosition(x, y);
      ghost var iSel, iEmpty := Index(columns, Slot(x, y)), Index(columns, emptyPos);
      TileAtOneCell(sel, iSel);
      var p := Pixel(tileWidth, tileHeight, emptyPos);
      sel.MoveInstantlyTo(p.x, p.y, emptyPos);
      ExchangeWithEmpty(sel, iSel, iEmpty);
      empty := Slot(x, y);
      assert SlotAt(columns, iSel) == Slot(x, y) && SlotAt(columns, iEmpty) == emptyPos;
    }

    /**
     * A click on slot (x, y): when the slot holds a tile in the empty slot's row
     * or column, that tile and every tile between it and the empty slot slide one
     * slot toward the empty slot, nearest first; otherwise nothing changes. Every
     * tile that moves is sent animating from where it is drawn.
     */
    method MoveTileViaSlot(x: int, y: int)
      requires Valid()
      modifies this, tiles, TileSet
      ensures Valid()
      ensures Model() == Click(columns, rows, old(Model()), Slot(x, y))
      ensures reverseMoves == old(reverseMoves)
      ensures Redirected(TileSet)
      ensures Ignored(columns, rows, old(empty), Slot(x, y)) ==>
        tiles[..] == old(tiles[..]) && forall t :: t in TileSet ==> unchanged(t)
    {
      if x < 0 || x >= columns || y < 0 || y >= rows {
        return;
      }
      var selected := tiles[Index(columns, Slot(x, y))];
      if selected == null {
        return;
      }
      var sp := selected.currentSlot;
      assert SlotAt(columns, Index(columns, Slot(x, y))) == Slot(x, y);
      var e := GetEmptyPosition();
      var ep := e.value;
      var inSameRow := sp.y == ep.y;
      var inSameColumn := sp.x == ep.x;
      if inSameRow {
        CascadeAlongRow(sp);
      } else if inSameColumn {
        CascadeAlongColumn(sp);
      }
      assert sp == Slot(x, y);
    }

    /** While a cascade along a row has not reached sp, the slot at x is the empty slot's neighbour toward sp. */
    static lemma TowardAlongRow(x: int, dx: int, sp: Slot)
      requires dx == 1 || dx == -1
      requires if dx == 1 then x <= sp.x else sp.x <= x
      ensures Slot(x - dx, sp.y) != sp && Aligned(Slot(x - dx, sp.y), sp)
      ensures Toward(Slot(x - dx, sp.y), sp) == Slot(x, sp.y)
    {
    }

    /** While a cascade along a column has not reached sp, the slot at y is the empty slot's neighbour toward sp. */
    static lemma TowardAlongColumn(y: int, dy: int, sp: Slot)
      requires dy == 1 || dy == -1
      requires if dy == 1 then y <= sp.y else sp.y <= y
      ensures Slot(sp.x, y - dy) != sp && Aligned(Slot(sp.x, y - dy), sp)
      ensures Toward(Slot(sp.x, y - dy), sp) == Slot(sp.x, y)
    {
    }

    /** One slide of a cascade toward sp, from slot (x, y) next to the empty slot. */
    method SlideToward(x: int, y: int, ghost sp: Slot)
      requires Valid() && InGrid(columns, rows, sp) && Aligned(empty, sp) && empty != sp
      requires Slot(x, y) == Toward(empty, sp)
      modifies this, tiles, TileSet
      ensures Valid() && empty == Slot(x, y) && reverseMoves == old(reverseMoves)
      ensures Cascade(columns, rows, Model(), sp) == Cascade(columns, rows, old(Model()), sp)
      ensures Redirected(TileSet)
    {
      CascadeAdvance(columns, rows, Model(), sp, Slot(x, y));
      MoveTileToEmpty(x, y);
    }

    /** The row branch of moveTileViaSlot: slides the tiles from the empty slot's neighbour up to sp. */
    method CascadeAlongRow(sp: Slot)
      requires Valid() && InGrid(columns, rows, sp) && sp.y == empty.y && sp != empty
      modifies this, tiles, TileSet
      ensures Valid()
      ensures Model() == Cascade(columns, rows, old(Model()), sp)
      ensures reverseMoves == old(reverseMoves)
      ensures Redirected(TileSet)
    {
      var e := GetEmptyPosition();
      var ep := e.value;
      var dx := if ep.x > sp.x then -1 else 1;
      SlideAlongRow(ep.x + dx, dx, sp);
      TowardAlongRow(sp.x, dx, sp);
      SlideToward(sp.x, sp.y, sp);
    }

    /** The loop of the row branch: slides the tiles from slot (xs, sp.y) up to the one before sp. */
    method SlideAlongRow(xs: int, dx: int, sp: Slot)
      requires Valid() && InGrid(columns, rows, sp) && sp != empty
      requires (dx == 1 || dx == -1) && empty == Slot(xs - dx, sp.y) && 0 <= xs - dx < columns
      requires if dx == 1 then xs <= sp.x else sp.x <= xs
      modifies this, tiles, TileSet
      ensures Valid() && empty == Slot(sp.x - dx, sp.y) && empty != sp
      ensures Cascade(columns, rows, Model(), sp) == Cascade(columns, rows, old(Model()), sp)
      ensures reverseMoves == old(reverseMoves)
      ensures Redirected(TileSet)
    {
      ghost var target := Cascade(columns, rows, Model(), sp);
      var x := xs;
      while x != sp.x
        invariant Valid() && reverseMoves == old(reverseMoves)
        invariant empty == Slot(x - dx, sp.y) && 0 <= x - dx < columns
        invariant if dx == 1 then x <= sp.x else sp.x <= x
        invariant Cascade(columns, rows, Model(), sp) == target
        invariant Redirected(TileSet)
        decreases if dx == 1 then sp.x - x else x - sp.x
      {
        TowardAlongRow(x, dx, sp);
        SlideToward(x, sp.y, sp);
        x := x + dx;
      }
    }

    /** The column branch of moveTileViaSlot. */
    method CascadeAlongColumn(sp: Slot)
      requires Valid() && InGrid(columns, rows, sp) && sp.x == empty.x && sp != empty
      modifies this, tiles, TileSet
      ensures Valid()
      ensures Model() == Cascade(columns, rows, old(Model()), sp)
      ensures reverseMoves == old(reverseMoves)
      ensures Redirected(TileSet)
    {
      var e := GetEmptyPosition();
      var ep := e.value;
      var dy := if ep.y > sp.y then -1 else 1;
      SlideAlongColumn(ep.y + dy, dy, sp);
      TowardAlongColumn(sp.y, dy, sp);
      SlideToward(sp.x, sp.y, sp);
    }

    /** The loop of the column branch: slides the tiles from slot (sp.x, ys) up to the one before sp. */
    method SlideAlongColumn(ys: int, dy: int, sp: Slot)
      requires Valid() && InGrid(columns, rows, sp) && sp != empty
      requires (dy == 1 || dy == -1) && empty == Slot(sp.x, ys - dy) && 0 <= ys - dy < rows
      requires if dy == 1 then ys <= sp.y else sp.y <= ys
      modifies this, tiles, TileSet
      ensures Valid() && empty == Slot(sp.x, sp.y - dy) && empty != sp
      ensures Cascade(columns, rows, Model(), sp) == Cascade(columns, rows, old(Model()), sp)
      ensures reverseMoves == old(reverseMoves)
      ensures Redirected(TileSet)
    {
      ghost var target := Cascade(columns, rows, Model(), sp);
      var y := ys;
      while y != sp.y
        invariant Valid() && reverseMoves == old(reverseMoves)
        invariant empty == Slot(sp.x, y - dy) && 0 <= y - dy < rows
        invariant if dy == 1 then y <= sp.y else sp.y <= y
        invariant Cascade(columns, rows, Model(), sp) == target
        invariant Redirected(TileSet)
        decreases if dy == 1 then sp.y - y else y - sp.y
      {
        TowardAlongColumn(y, dy, sp);
        SlideToward(sp.x, y, sp);
        y := y + dy;
      }
    }

    /**
     * A click at pixel (px, py) of the grid: positions at or past the grid's
     * right or bottom edge are ignored; otherwise the pixel is turned into a slot
     * with Java's truncating division and clicked.
     */
    method MoveTile(px: int, py: int)
      requires Valid()
      modifies this, tiles, TileSet
      ensures Valid()
      ensures Model() ==
        if px >= tileWidth * columns || py >= tileHeight * rows then old(Model())
        else Click(columns, rows, old(Model()), Slot(JavaDiv(px, tileWidth), JavaDiv(py, tileHeight)))
      ensures reverseMoves == old(reverseMoves)
      ensures Redirected(TileSet)
      ensures (|| px >= tileWidth * columns || py >= tileHeight * rows
               || Ignored(columns, rows, old(empty), Slot(JavaDiv(px, tileWidth), JavaDiv(py, tileHeight))))
        ==> tiles[..] == old(tiles[..]) && forall t :: t in TileSet ==> unchanged(t)
    {
      if px >= tileWidth * columns {
        return;
      }
      if py >= tileHeight * rows {
        return;
      }
      var column := JavaDiv(px, tileWidth);
      var row := JavaDiv(py, tileHeight);
      MoveTileViaSlot(column, row);
    }

    /** Whether every tile is in its original slot, which is the solved arrangement. */
    method IsComplete() returns (b: bool)
      requires Valid()
      ensures b <==> Complete(columns, Model())
      ensures b <==> Model() == Solved(columns, rows)
    {
      ModelWellFormed();
      CompleteIffSolved(columns, rows, Model());
      var i := 0;
      while i < tiles.Length
        invariant 0 <= i <= tiles.Length
        invariant forall k :: 0 <= k < i ==> tiles[k] == null || tiles[k].IsInOriginalSlot()
      {
        var t := tiles[i];
        if t != null && !t.IsInOriginalSlot() {
          assert Model().cells[i] == Piece(t.originalSlot);
          return false;
        }
        i := i + 1;
      }
      return true;
    }

    /** Whether no tile is animating; then every tile is drawn exactly at its slot. */
    method IsNotMoving() returns (b: bool)
      requires Valid()
      ensures b <==> forall t :: t in TileSet ==> !t.IsMoving()
      ensures b ==> forall t :: t in TileSet ==> t.position == Pixel(tileWidth, tileHeight, t.currentSlot)
    {
      var i := 0;
      while i < tiles.Length
        invariant 0 <= i <= tiles.Length
        invariant forall k :: 0 <= k < i ==> tiles[k] == null || !tiles[k].IsMoving()
      {
        var t := tiles[i];
        if t != null && t.IsMoving() {
          return false;
        }
        i := i + 1;
      }
      return true;
    }

    /** A copy of the reverse-move list. */
    method GetReverseMoves() returns (r: seq<Slot>)
      ensures r == reverseMoves
    {
      r := [];
      var i := 0;
      while i < |reverseMoves|
        invariant 0 <= i <= |reverseMoves| && r == reverseMoves[..i]
      {
        r := r + [reverseMoves[i]];
        i := i + 1;
      }
    }

    /** Advances every tile's animation by time milliseconds. */
    method Update(time: int)
      requires Valid()
      modifies TileSet
      ensures Valid() && Model() == old(Model())
      ensures forall t :: t in TileSet ==>
        && t.currentSlot == old(t.currentSlot) && t.moveLocation == old(t.moveLocation)
        && Motion(t.position.x, t.velocity.x) == Advance(old(t.position.x), old(t.velocity.x), t.moveLocation.x, time)
        && Motion(t.position.y, t.velocity.y) == Advance(old(t.position.y), old(t.velocity.y), t.moveLocation.y, time)
    {
      var i := 0;
      while i < tiles.Length
        invariant 0 <= i <= tiles.Length
        invariant Valid()
        invariant forall t :: t in TileSet ==> t.currentSlot == old(t.currentSlot) && t.moveLocation == old(t.moveLocation)
        invariant forall t :: t in TileSet && Index(columns, t.currentSlot) < i ==>
          && Motion(t.position.x, t.velocity.x) == Advance(old(t.position.x), old(t.velocity.x), t.moveLocation.x, time)
          && Motion(t.position.y, t.velocity.y) == Advance(old(t.position.y), old(t.velocity.y), t.moveLocation.y, time)
        invariant forall t :: t in TileSet && Index(columns, t.currentSlot) >= i ==>
          t.position == old(t.position) && t.velocity == old(t.velocity)
      {
        var t := tiles[i];
        if t != null {
          assert Index(columns, t.currentSlot) == i;
          t.Update(time);
        }
        i := i + 1;
      }
    }

    /**
     * The candidate scan of shuffle: after a vertical move the other slots of
     * the empty slot's row, else of its column, skipping the previous empty slot.
     */
    method PossibleMoves(cur: Slot, last: Slot, lastVertical: bool) returns (r: seq<Slot>)
      requires Valid()
      ensures r == Candidates(columns, rows, cur, last, lastVertical)
    {
      r := [];
      if lastVertical {
        var x := 0;
        while x < columns
          invariant 0 <= x <= columns && r == Scan(cur, last, true, x)
        {
          var addMe := Slot(x, cur.y);
          if addMe != cur && addMe != last {
            r := r + [addMe];
          }
          x := x + 1;
        }
      } else {
        var y := 0;
        while y < rows
          invariant 0 <= y <= rows && r == Scan(cur, last, false, y)
        {
          var addMe := Slot(cur.x, y);
          if addMe != cur && addMe != last {
            r := r + [addMe];
          }
          y := y + 1;
        }
      }
    }

    /** One instant slide of the shuffle's cascade toward use, from slot (x, y) next to the empty slot. */
    method SlideInstantlyToward(x: int, y: int, ghost use: Slot)
      requires Valid() && AtRest() && InGrid(columns, rows, use) && Aligned(empty, use) && empty != use
      requires Slot(x, y) == Toward(empty, use)
      modifies this, tiles, TileSet
      ensures Valid() && AtRest() && empty == Slot(x, y) && reverseMoves == old(reverseMoves)
      ensures Cascade(columns, rows, Model(), use) == Cascade(columns, rows, old(Model()), use)
    {
      CascadeAdvance(columns, rows, Model(), use, Slot(x, y));
      MoveTileInstantlyToEmpty(x, y);
    }

    /** The shuffle's slide of every tile from the empty slot cur up to use, without animating. */
    method SlideInstantly(cur: Slot, use: Slot)
      requires Valid() && AtRest() && cur == empty
      requires InGrid(columns, rows, use) && Aligned(cur, use) && use != cur
      modifies this, tiles, TileSet
      ensures Valid() && AtRest() && reverseMoves == old(reverseMoves)
      ensures Model() == Cascade(columns, rows, old(Model()), use)
    {
      if use.x != cur.x {
        SlideInstantlyAlongRow(cur, use);
      } else {
        SlideInstantlyAlongColumn(cur, use);
      }
    }

    /** The row branch of the shuffle's slide: the tiles from next to cur up to use, nearest first. */
    method SlideInstantlyAlongRow(cur: Slot, use: Slot)
      requires Valid() && AtRest() && cur == empty
      requires InGrid(columns, rows, use) && cur.y == use.y && use.x != cur.x
      modifies this, tiles, TileSet
      ensures Valid() && AtRest() && reverseMoves == old(reverseMoves)
      ensures Model() == Cascade(columns, rows, old(Model()), use)
    {
      ghost var target := Cascade(columns, rows, Model(), use);
      var dx := if use.x > cur.x then 1 else -1;
      var x := cur.x + dx;
      while x != use.x + dx
        invariant Valid() && AtRest() && reverseMoves == old(reverseMoves)
        invariant empty == Slot(x - dx, use.y)
        invariant if dx == 1 then x <= use.x + 1 else use.x - 1 <= x
        invariant Cascade(columns, rows, Model(), use) == target
        decreases if dx == 1 then use.x + 1 - x else x - use.x + 1
      {
        TowardAlongRow(x, dx, use);
        SlideInstantlyToward(x, use.y, use);
        x := x + dx;
      }
    }

    /** The column branch of the shuffle's slide. */
    method SlideInstantlyAlongColumn(cur: Slot, use: Slot)
      requires Valid() && AtRest() && cur == empty
      requires InGrid(columns, rows, use) && cur.x == use.x && use.y != cur.y
      modifies this, tiles, TileSet
      ensures Valid() && AtRest() && reverseMoves == old(reverseMoves)
      ensures Model() == Cascade(columns, rows, old(Model()), use)
    {
      ghost var target := Cascade(columns, rows, Model(), use);
      var dy := if use.y > cur.y then 1 else -1;
      var y := cur.y + dy;
      while y != use.y + dy
        invariant Valid() && AtRest() && reverseMoves == old(reverseMoves)
        invariant empty == Slot(use.x, y - dy)
        invariant if dy == 1 then y <= use.y + 1 else use.y - 1 <= y
        invariant Cascade(columns, rows, Model(), use) == target
        decreases if dy == 1 then use.y + 1 - y else y - use.y + 1
      {
        TowardAlongColumn(y, dy, use);
        SlideInstantlyToward(use.x, y, use);
        y := y + dy;
      }
    }

    /**
     * One iteration of the shuffle loop: scan the candidates, take the picked
     * one, record it at the front of the reverse-move list and slide every tile
     * between it and the empty slot, without animating.
     */
    method ShuffleMove(cur: Slot, last: Slot, lastVertical: bool, pick: int) returns (useMe: Slot)
      requires Valid() && AtRest() && cur == empty
      requires WalkShape(cur, last, lastVertical)
      requires 0 <= pick < |Candidates(columns, rows, cur, last, lastVertical)|
      modifies this, tiles, TileSet
      ensures Valid() && AtRest() && useMe == empty
      ensures Walker(Model(), cur, !lastVertical, reverseMoves)
        == ShuffleStep(columns, rows, Walker(old(Model()), last, lastVertical, old(reverseMoves)), pick)
    {
      ghost var next := ShuffleStep(columns, rows, Walker(Model(), last, lastVertical, reverseMoves), pick);
      var possibleMoves := PossibleMoves(cur, last, lastVertical);
      useMe := possibleMoves[pick];
      reverseMoves := [useMe] + reverseMoves;
      SlideInstantly(cur, useMe);
      assert Walker(Model(), cur, !lastVertical, reverseMoves) == next;
    }

    /**
     * Shuffles by SHUFFLE_MOVES random player-like moves, alternating between the
     * empty slot's row and column and never straight back, recording each move
     * at the front of the reverse-move list. picks[i] stands for the i-th value
     * drawn from java.util.Random.nextInt.
     */
    method Shuffle(picks: seq<int>)
      requires Valid() && AtRest() && columns >= 2 && rows >= 2
      requires |picks| == SHUFFLE_MOVES && Fits(columns, rows, picks)
      modifies this, tiles, TileSet
      ensures Valid() && AtRest()
      ensures var w := ShuffleRun(columns, rows, Start(old(Model())), picks);
        Model() == w.board && reverseMoves == w.reverseMoves
    {
      var e1 := GetEmptyPosition();
      var e2 := GetEmptyPosition();
      var lastEmptyPosition, currentEmptyPosition := e1.value, e2.value;
      var lastVertical := true;
      reverseMoves := [Slot(0, 0)];
      ghost var start := Start(Model());
      ghost var w := start;
      ModelWellFormed();
      assert Fits(columns, rows, picks[..0]);
      for i := 0 to SHUFFLE_MOVES
        invariant Valid() && AtRest() && currentEmptyPosition == empty
        invariant Model() == w.board && lastEmptyPosition == w.last && lastVertical == w.lastVertical
        invariant reverseMoves == w.reverseMoves
        invariant Walked(columns, rows, start, picks, i, w)
      {
        WalkedNext(columns, rows, start, picks, i, w);
        var useMe := ShuffleMove(currentEmptyPosition, lastEmptyPosition, lastVertical, picks[i]);
        w := ShuffleStep(columns, rows, w, picks[i]);
        lastVertical := !lastVertical;
        lastEmptyPosition := currentEmptyPosition;
        currentEmptyPosition := useMe;
      }
      WalkedAll(columns, rows, start, picks, w);
    }
  }
}
