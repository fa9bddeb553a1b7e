/**
 * The sliding-puzzle board as a value: what each cell of TileGrid's tile array
 * holds (nothing, or the tile with a given original slot) and where the empty
 * slot is. The grid's moves are specified by the functions of this module, and
 * the lemmas say what those moves mean: a click slides a whole run of tiles one
 * slot toward the empty slot, and clicking the old empty slot undoes it.
 */
module Board {
  import opened Slots

  /** A cell: the empty slot, or a tile known by its original (home) slot. */
  datatype Cell = Empty | Piece(home: Slot)

  datatype Board = Board(cells: seq<Cell>, empty: Slot)

  /** A columns x rows board whose empty slot lies inside the grid. */
  ghost predicate Shaped(columns: int, rows: int, b: Board)
  {
    Indexing(columns, rows) && |b.cells| == columns * rows && InGrid(columns, rows, b.empty)
  }

  /** Exactly one cell is empty, and it is the one at the empty slot. */
  ghost predicate WellFormed(columns: int, rows: int, b: Board)
  {
    && Shaped(columns, rows, b)
    && forall i :: 0 <= i < |b.cells| ==> (b.cells[i] == Empty <==> i == Index(columns, b.empty))
  }

  /** No tile has the top-left slot as its home: that slot is the one left empty. */
  predicate NoHomeAtOrigin(b: Board)
  {
    forall i :: 0 <= i < |b.cells| ==> b.cells[i] != Piece(Slot(0, 0))
  }

  /** p and q share a row or a column. */
  predicate Aligned(p: Slot, q: Slot)
  {
    p.x == q.x || p.y == q.y
  }

  function Sign(n: int): int
  {
    if n > 0 then 1 else if n < 0 then -1 else 0
  }

  function Abs(n: int): nat
  {
    if n < 0 then -n else n
  }

  function Dist(p: Slot, q: Slot): nat
  {
    Abs(p.x - q.x) + Abs(p.y - q.y)
  }

  /** The neighbour of p one slot nearer to q, along their shared row (tried first) or column. */
  function Toward(p: Slot, q: Slot): (r: Slot)
    requires Aligned(p, q) && p != q
    ensures Aligned(r, q) && Dist(r, q) == Dist(p, q) - 1 && Dist(p, r) == 1
  {
    if p.y == q.y then Slot(p.x + Sign(q.x - p.x), p.y) else Slot(p.x, p.y + Sign(q.y - p.y))
  }

  /** p lies on the straight run of slots from e to s, both ends included. */
  predicate OnSegment(e: Slot, s: Slot, p: Slot)
  {
    || (e.y == s.y && p.y == e.y && (e.x <= p.x <= s.x || s.x <= p.x <= e.x))
    || (e.x == s.x && p.x == e.x && (e.y <= p.y <= s.y || s.y <= p.y <= e.y))
  }

  function Swap<T>(c: seq<T>, i: int, j: int): (r: seq<T>)
    requires 0 <= i < |c| && 0 <= j < |c|
    ensures |r| == |c| && r[i] == c[j] && r[j] == c[i]
    ensures forall k :: 0 <= k < |c| && k != i && k != j ==> r[k] == c[k]
  {
    c[i := c[j]][j := c[i]]
  }

  /**
   * One slide (TileGrid.moveTileToEmpty): the content of slot s moves into the
   * empty slot, and s becomes the empty slot.
   */
  function Step(columns: int, rows: int, b: Board, s: Slot): (r: Board)
    requires Shaped(columns, rows, b) && InGrid(columns, rows, s)
    ensures Shaped(columns, rows, r) && r.empty == s
  {
    Board(Swap(b.cells, Index(columns, b.empty), Index(columns, s)), s)
  }

  /**
   * The cascade of TileGrid.moveTileViaSlot: slide the tiles between the empty
   * slot and s into the empty slot one at a time, nearest first, ending with the
   * tile at s.
   */
  function Cascade(columns: int, rows: int, b: Board, s: Slot): (r: Board)
    requires Shaped(columns, rows, b) && InGrid(columns, rows, s) && Aligned(b.empty, s)
    ensures Shaped(columns, rows, r) && r.empty == s
    decreases Dist(b.empty, s)
  {
    if b.empty == s then b
    else Cascade(columns, rows, Step(columns, rows, b, Toward(b.empty, s)), s)
  }

  /**
   * A click on slot s (TileGrid.moveTileViaSlot): nothing happens outside the
   * grid, on the empty slot, or on a slot that shares neither row nor column with
   * the empty slot; otherwise the run of tiles up to s cascades.
   */
  function Click(columns: int, rows: int, b: Board, s: Slot): (r: Board)
    requires Shaped(columns, rows, b)
    ensures Shaped(columns, rows, r)
  {
    if !InGrid(columns, rows, s) || b.cells[Index(columns, s)] == Empty then b
    else if s.y == b.empty.y || s.x == b.empty.x then Cascade(columns, rows, b, s)
    else b
  }

  /** Clicks on the given slots, in order. */
  function Replay(columns: int, rows: int, b: Board, moves: seq<Slot>): (r: Board)
    requires Shaped(columns, rows, b)
    ensures Shaped(columns, rows, r)
    decreases |moves|
  {
    if moves == [] then b
    else Replay(columns, rows, Click(columns, rows, b, moves[0]), moves[1..])
  }

  /** The arrangement TileGrid's constructor builds: every tile at home, slot (0, 0) empty. */
  function Solved(columns: int, rows: int): (b: Board)
    requires columns >= 1 && rows >= 1
    ensures |b.cells| == columns * rows && b.empty == Slot(0, 0) && b.cells[0] == Empty
    ensures Complete(columns, b)
  {
    Board(seq(columns * rows, i => if i == 0 then Empty else Piece(SlotAt(columns, i))), Slot(0, 0))
  }

  /** Every tile is in its original slot (TileGrid.isComplete). */
  predicate Complete(columns: int, b: Board)
    requires columns >= 1
  {
    forall i :: 0 <= i < |b.cells| ==> b.cells[i] == Empty || b.cells[i].home == SlotAt(columns, i)
  }

  // ---------------------------------------------------------------------------
  // Lemmas

  lemma SolvedWellFormed(columns: int, rows: int)
    requires Indexing(columns, rows)
    ensures WellFormed(columns, rows, Solved(columns, rows))
    ensures NoHomeAtOrigin(Solved(columns, rows)) && Complete(columns, Solved(columns, rows))
  {
    var b := Solved(columns, rows);
    assert InGrid(columns, rows, Slot(0, 0));
    assert Index(columns, b.empty) == 0;
    forall i | 0 < i < |b.cells|
      ensures b.cells[i] != Piece(Slot(0, 0))
    {
      assert Index(columns, SlotAt(columns, i)) == i;
    }
  }

  /** A slide keeps exactly one cell empty, now the one at s. */
  lemma StepWellFormed(columns: int, rows: int, b: Board, s: Slot)
    requires WellFormed(columns, rows, b) && InGrid(columns, rows, s)
    ensures WellFormed(columns, rows, Step(columns, rows, b, s))
  {
    assert SlotAt(columns, Index(columns, s)) == s;
    assert SlotAt(columns, Index(columns, b.empty)) == b.empty;
  }

  lemma {:induction false} CascadeWellFormed(columns: int, rows: int, b: Board, s: Slot)
    requires WellFormed(columns, rows, b) && InGrid(columns, rows, s) && Aligned(b.empty, s)
    ensures WellFormed(columns, rows, Cascade(columns, rows, b, s))
    decreases Dist(b.empty, s)
  {
    if b.empty != s {
      var n := Toward(b.empty, s);
      StepWellFormed(columns, rows, b, n);
      CascadeWellFormed(columns, rows, Step(columns, rows, b, n), s);
    }
  }

  /** A cascade only rearranges the cells: the tiles on the board stay the same. */
  lemma {:induction false} CascadePermutes(columns: int, rows: int, b: Board, s: Slot)
    requires Shaped(columns, rows, b) && InGrid(columns, rows, s) && Aligned(b.empty, s)
    ensures multiset(Cascade(columns, rows, b, s).cells) == multiset(b.cells)
    decreases Dist(b.empty, s)
  {
    if b.empty != s {
      var n := Toward(b.empty, s);
      var i, j := Index(columns, b.empty), Index(columns, n);
      calc {
        multiset(Step(columns, rows, b, n).cells);
        multiset(b.cells[i := b.cells[j]][j := b.cells[i]]);
        multiset(b.cells);
      }
      CascadePermutes(columns, rows, Step(columns, rows, b, n), s);
    }
  }

  /**
   * What a cascade does, slot by slot: s becomes empty, every other slot of the
   * run from the empty slot e to s takes the tile of its neighbour nearer to s
   * (each tile moves one slot toward e), and every slot off the run is unchanged.
   */
  lemma {:induction false} CascadeShifts(columns: int, rows: int, b: Board, s: Slot, p: Slot)
    requires Shaped(columns, rows, b) && InGrid(columns, rows, s) && Aligned(b.empty, s)
    requires InGrid(columns, rows, p)
    ensures var r := Cascade(columns, rows, b, s);
      r.cells[Index(columns, p)] ==
        if p == s then b.cells[Index(columns, b.empty)]
        else if OnSegment(b.empty, s, p) then b.cells[Index(columns, Toward(p, s))]
        else b.cells[Index(columns, p)]
    decreases Dist(b.empty, s)
  {
    var e := b.empty;
    if e != s {
      var n := Toward(e, s);
      var b1 := Step(columns, rows, b, n);
      CascadeShifts(columns, rows, b1, s, p);
      assert SlotAt(columns, Index(columns, p)) == p;
      assert SlotAt(columns, Index(columns, n)) == n;
      assert SlotAt(columns, Index(columns, e)) == e;
      if p != s && OnSegment(n, s, p) {
        var t := Toward(p, s);
        assert SlotAt(columns, Index(columns, t)) == t;
      }
    }
  }

  /** The first slide of a cascade, and the cascade that remains after it. */
  lemma CascadeAdvance(columns: int, rows: int, b: Board, s: Slot, n: Slot)
    requires Shaped(columns, rows, b) && InGrid(columns, rows, s) && Aligned(b.empty, s)
    requires b.empty != s && n == Toward(b.empty, s)
    ensures InGrid(columns, rows, n) && Aligned(n, s)
    ensures Cascade(columns, rows, b, s) == Cascade(columns, rows, Step(columns, rows, b, n), s)
  {
  }

  /** Sliding back into the slot just vacated restores the board. */
  lemma StepUndo(columns: int, rows: int, c: Board, s: Slot)
    requires Shaped(columns, rows, c) && InGrid(columns, rows, s)
    ensures Step(columns, rows, Step(columns, rows, c, s), c.empty) == c
  {
    var i, j := Index(columns, c.empty), Index(columns, s);
    assert Swap(Swap(c.cells, i, j), j, i) == c.cells;
  }

  /** A cascade to s is the cascade to the slot before s, then one slide from s. */
  lemma {:induction false} CascadeSnoc(columns: int, rows: int, b: Board, s: Slot)
    requires Shaped(columns, rows, b) && InGrid(columns, rows, s) && Aligned(b.empty, s)
    requires b.empty != s
    ensures var back := Toward(s, b.empty);
      InGrid(columns, rows, back) && Aligned(b.empty, back) &&
      Cascade(columns, rows, b, s) == Step(columns, rows, Cascade(columns, rows, b, back), s)
    decreases Dist(b.empty, s)
  {
    var e := b.empty;
    var n := Toward(e, s);
    var back := Toward(s, e);
    if n != s {
      var b1 := Step(columns, rows, b, n);
      assert Toward(s, n) == back;
      CascadeSnoc(columns, rows, b1, s);
      assert Toward(e, back) == n;
    }
  }

  /** Cascading back to the old empty slot undoes a cascade. */
  lemma {:induction false} CascadeUndo(columns: int, rows: int, b: Board, s: Slot)
    requires Shaped(columns, rows, b) && InGrid(columns, rows, s) && Aligned(b.empty, s)
    ensures Cascade(columns, rows, Cascade(columns, rows, b, s), b.empty) == b
    decreases Dist(b.empty, s)
  {
    var e := b.empty;
    if e != s {
      var back := Toward(s, e);
      CascadeSnoc(columns, rows, b, s);
      var c := Cascade(columns, rows, b, back);
      StepUndo(columns, rows, c, s);
      CascadeUndo(columns, rows, b, back);
    }
  }

  /**
   * The three cases of a click on a well-formed board: outside the grid, on the
   * empty slot, or off the empty slot's row and column, nothing changes;
   * otherwise the empty slot moves to s and the board stays well formed.
   */
  lemma ClickCases(columns: int, rows: int, b: Board, s: Slot)
    requires WellFormed(columns, rows, b)
    ensures var r := Click(columns, rows, b, s);
      && WellFormed(columns, rows, r)
      && (!InGrid(columns, rows, s) || s == b.empty || !Aligned(b.empty, s) ==> r == b)
      && (InGrid(columns, rows, s) && s != b.empty && Aligned(b.empty, s) ==>
            r == Cascade(columns, rows, b, s) && r.empty == s)
  {
    if InGrid(columns, rows, s) && s != b.empty && Aligned(b.empty, s) {
      assert SlotAt(columns, Index(columns, s)) == s;
      CascadeWellFormed(columns, rows, b, s);
    }
  }

  /** Clicking the slot that was empty before a move undoes that move. */
  lemma ClickUndo(columns: int, rows: int, b: Board, s: Slot)
    requires WellFormed(columns, rows, b) && InGrid(columns, rows, s)
    requires Aligned(b.empty, s) && s != b.empty
    ensures Click(columns, rows, Click(columns, rows, b, s), b.empty) == b
  {
    ClickCases(columns, rows, b, s);
    var c := Click(columns, rows, b, s);
    ClickCases(columns, rows, c, b.empty);
    CascadeUndo(columns, rows, b, s);
  }

  /**
   * On a well-formed board whose tiles never have (0, 0) as home, every tile is
   * at home exactly when the board is the solved arrangement.
   */
  lemma CompleteIffSolved(columns: int, rows: int, b: Board)
    requires WellFormed(columns, rows, b) && NoHomeAtOrigin(b)
    ensures Complete(columns, b) <==> b == Solved(columns, rows)
  {
    var sv := Solved(columns, rows);
    SolvedWellFormed(columns, rows);
    if Complete(columns, b) {
      assert SlotAt(columns, 0) == Slot(0, 0);
      assert b.cells[0] == Empty;
      assert SlotAt(columns, Index(columns, b.empty)) == b.empty;
      assert b.empty == Slot(0, 0);
      assert b.cells == sv.cells;
    }
  }
}
