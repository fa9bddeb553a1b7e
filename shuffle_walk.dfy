/**
 * TileGrid.shuffle as a value-level walk. Starting from the solved board, the
 * empty slot makes SHUFFLE_MOVES moves, alternating between a move along its
 * row and a move along its column; each move picks one of the other slots of
 * that line (the Java code draws the pick from java.util.Random, here it is an
 * input) and cascades the tiles in between, exactly as a player's click would.
 * Every move is recorded at the front of the reverse-move list, so replaying the
 * list after its first entry walks the board back to the solved arrangement.
 */
module ShuffleWalk {
  import opened Slots
  import opened Board

  const SHUFFLE_MOVES: int := 100

  /**
   * The state the shuffle loop carries: the board, the previous empty slot,
   * whether the last move was vertical, and the reverse-move list.
   */
  datatype Walker = Walker(board: Board, last: Slot, lastVertical: bool, reverseMoves: seq<Slot>)

  /** Slot number i of the line scanned from cur: its row after a vertical move, else its column. */
  function LineSlot(cur: Slot, lastVertical: bool, i: int): Slot
  {
    if lastVertical then Slot(i, cur.y) else Slot(cur.x, i)
  }

  /** The position of cur itself on that line. */
  function LinePos(cur: Slot, lastVertical: bool): int
  {
    if lastVertical then cur.x else cur.y
  }

  /** The first n slots of the line, skipping the current and the previous empty slot. */
  function Scan(cur: Slot, last: Slot, lastVertical: bool, n: nat): (r: seq<Slot>)
    ensures |r| <= n
    ensures forall k :: 0 <= k < |r| ==>
      && r[k] != cur && r[k] != last
      && (lastVertical ==> r[k].y == cur.y && 0 <= r[k].x < n)
      && (!lastVertical ==> r[k].x == cur.x && 0 <= r[k].y < n)
  {
    if n == 0 then []
    else
      var p := LineSlot(cur, lastVertical, n - 1);
      Scan(cur, last, lastVertical, n - 1) + (if p != cur && p != last then [p] else [])
  }

  /** The list of possible moves the shuffle builds before each pick. */
  function Candidates(columns: int, rows: int, cur: Slot, last: Slot, lastVertical: bool): (r: seq<Slot>)
    ensures forall k :: 0 <= k < |r| ==>
      && r[k] != cur && r[k] != last
      && (lastVertical ==> r[k].y == cur.y && 0 <= r[k].x < columns)
      && (!lastVertical ==> r[k].x == cur.x && 0 <= r[k].y < rows)
  {
    Scan(cur, last, lastVertical, if lastVertical then (if columns < 0 then 0 else columns) else (if rows < 0 then 0 else rows))
  }

  /**
   * The shape the walk keeps: after a vertical move the previous empty slot is
   * in the same column (or, before the first move, is the empty slot itself);
   * after a horizontal move it is in the same row.
   */
  predicate Walking(w: Walker)
  {
    WalkShape(w.board.empty, w.last, w.lastVertical)
  }

  predicate WalkShape(cur: Slot, last: Slot, lastVertical: bool)
  {
    if lastVertical then last == cur || (last.x == cur.x && last.y != cur.y)
    else last.y == cur.y && last.x != cur.x
  }

  /** Every pick is an index into that move's candidate list. */
  predicate Fits(columns: int, rows: int, picks: seq<int>)
  {
    forall i :: 0 <= i < |picks| ==> 0 <= picks[i] < (if i % 2 == 0 then columns - 1 else rows - 1)
  }

  /** The walk before the first move: the reverse list holds slot (0, 0) only. */
  function Start(b: Board): Walker
  {
    Walker(b, b.empty, true, [Slot(0, 0)])
  }

  lemma {:induction false} ScanExact(cur: Slot, last: Slot, lastVertical: bool, n: nat)
    requires LinePos(cur, lastVertical) >= 0
    requires last == cur || ((lastVertical ==> last.y != cur.y) && (!lastVertical ==> last.x != cur.x))
    ensures var c := LinePos(cur, lastVertical);
      var r := Scan(cur, last, lastVertical, n);
      && |r| == (if c < n then n - 1 else n)
      && forall k :: 0 <= k < |r| ==> r[k] == LineSlot(cur, lastVertical, if k < c then k else k + 1)
  {
    if n > 0 {
      ScanExact(cur, last, lastVertical, n - 1);
    }
  }

  /**
   * Outside the first move the previous empty slot is never on the scanned line,
   * so the candidates are all columns - 1 (or rows - 1) other slots of the line,
   * in order.
   */
  lemma CandidatesExact(columns: int, rows: int, cur: Slot, last: Slot, lastVertical: bool)
    requires InGrid(columns, rows, cur)
    requires WalkShape(cur, last, lastVertical)
    ensures var r := Candidates(columns, rows, cur, last, lastVertical);
      var c := LinePos(cur, lastVertical);
      && |r| == (if lastVertical then columns else rows) - 1
      && forall k :: 0 <= k < |r| ==> r[k] == LineSlot(cur, lastVertical, if k < c then k else k + 1)
  {
    ScanExact(cur, last, lastVertical, if lastVertical then columns else rows);
  }

  /** One iteration of the shuffle loop: pick a candidate, cascade to it, record it. */
  function ShuffleStep(columns: int, rows: int, w: Walker, pick: int): (r: Walker)
    requires Shaped(columns, rows, w.board)
    requires 0 <= pick < |Candidates(columns, rows, w.board.empty, w.last, w.lastVertical)|
    ensures Shaped(columns, rows, r.board) && Walking(r)
    ensures r.board.empty != w.board.empty && r.board.empty != w.last
    ensures w.lastVertical ==> r.board.empty.y == w.board.empty.y
    ensures !w.lastVertical ==> r.board.empty.x == w.board.empty.x
    ensures r.last == w.board.empty && r.lastVertical == !w.lastVertical
    ensures r.reverseMoves == [r.board.empty] + w.reverseMoves
  {
    var use := Candidates(columns, rows, w.board.empty, w.last, w.lastVertical)[pick];
    Walker(Cascade(columns, rows, w.board, use), w.board.empty, !w.lastVertical, [use] + w.reverseMoves)
  }

  /** The walk after the given picks, one per iteration. */
  function ShuffleRun(columns: int, rows: int, w: Walker, picks: seq<int>): (r: Walker)
    requires Shaped(columns, rows, w.board) && Walking(w) && w.lastVertical
    requires Fits(columns, rows, picks)
    ensures Shaped(columns, rows, r.board) && Walking(r) && r.lastVertical == (|picks| % 2 == 0)
    decreases |picks|
  {
    if picks == [] then w
    else
      var n := |picks| - 1;
      assert Fits(columns, rows, picks[..n]);
      var prev := ShuffleRun(columns, rows, w, picks[..n]);
      CandidatesExact(columns, rows, prev.board.empty, prev.last, prev.lastVertical);
      ShuffleStep(columns, rows, prev, picks[n])
  }

  /** w is the walk from start after the first i of the picks. */
  ghost predicate Walked(columns: int, rows: int, start: Walker, picks: seq<int>, i: int, w: Walker)
  {
    && Shaped(columns, rows, start.board) && Walking(start) && start.lastVertical
    && Fits(columns, rows, picks) && 0 <= i <= |picks|
    && Fits(columns, rows, picks[..i])
    && w == ShuffleRun(columns, rows, start, picks[..i])
  }

  /**
   * One more pick continues the walk: it indexes the candidates of the walk so
   * far, and the step it makes is the walk after i + 1 picks.
   */
  lemma WalkedNext(columns: int, rows: int, start: Walker, picks: seq<int>, i: int, w: Walker)
    requires Walked(columns, rows, start, picks, i, w) && i < |picks|
    ensures Shaped(columns, rows, w.board) && InGrid(columns, rows, w.board.empty) && Walking(w)
    ensures 0 <= picks[i] < |Candidates(columns, rows, w.board.empty, w.last, w.lastVertical)|
    ensures Walked(columns, rows, start, picks, i + 1, ShuffleStep(columns, rows, w, picks[i]))
  {
    assert picks[..i + 1][..i] == picks[..i];
    CandidatesExact(columns, rows, w.board.empty, w.last, w.lastVertical);
  }

  /** After all the picks, the walk is the whole run. */
  lemma WalkedAll(columns: int, rows: int, start: Walker, picks: seq<int>, w: Walker)
    requires Walked(columns, rows, start, picks, |picks|, w)
    ensures w == ShuffleRun(columns, rows, start, picks)
  {
    assert picks[..|picks|] == picks;
  }

  /**
   * The shuffle can be undone by clicks: the reverse list starts with the final
   * empty slot and ends with (0, 0), and replaying it from its second entry
   * restores the board the walk started from, which stays well formed throughout.
   */
  lemma {:induction false} ShuffleRoundTrip(columns: int, rows: int, b: Board, picks: seq<int>)
    requires WellFormed(columns, rows, b) && b.empty == Slot(0, 0)
    requires Fits(columns, rows, picks)
    ensures var r := ShuffleRun(columns, rows, Start(b), picks);
      && WellFormed(columns, rows, r.board)
      && |r.reverseMoves| == |picks| + 1
      && r.reverseMoves[0] == r.board.empty
      && r.reverseMoves[|picks|] == Slot(0, 0)
      && Replay(columns, rows, r.board, r.reverseMoves[1..]) == b
    decreases |picks|
  {
    if picks != [] {
      var n := |picks| - 1;
      assert Fits(columns, rows, picks[..n]);
      ShuffleRoundTrip(columns, rows, b, picks[..n]);
      var prev := ShuffleRun(columns, rows, Start(b), picks[..n]);
      CandidatesExact(columns, rows, prev.board.empty, prev.last, prev.lastVertical);
      var r := ShuffleStep(columns, rows, prev, picks[n]);
      assert r == ShuffleRun(columns, rows, Start(b), picks);
      var use := r.board.empty;
      CascadeWellFormed(columns, rows, prev.board, use);
      ClickCases(columns, rows, prev.board, use);
      ClickUndo(columns, rows, prev.board, use);
      assert r.reverseMoves[1..] == prev.reverseMoves;
      assert prev.reverseMoves[0] == prev.board.empty;
      assert Replay(columns, rows, r.board, r.reverseMoves[1..])
          == Replay(columns, rows, Click(columns, rows, r.board, prev.board.empty), prev.reverseMoves[1..]);
    }
  }

  /**
   * Consecutive entries of a reverse list of n moves differ along exactly one
   * axis: the move numbered n - j (counting from 1) joins entries j and j + 1,
   * and odd-numbered moves run along a row, even-numbered ones along a column.
   */
  predicate Alternates(rm: seq<Slot>, n: int)
    requires |rm| == n + 1
  {
    && (forall j :: 0 <= j < n && (n - j) % 2 == 1 ==> rm[j].y == rm[j + 1].y && rm[j].x != rm[j + 1].x)
    && (forall j :: 0 <= j < n && (n - j) % 2 == 0 ==> rm[j].x == rm[j + 1].x && rm[j].y != rm[j + 1].y)
  }

  /** Alternating moves never return straight to the slot the empty slot just left. */
  lemma AlternatesNoBacktrack(rm: seq<Slot>, n: int)
    requires |rm| == n + 1 && Alternates(rm, n)
    ensures forall j :: 0 <= j < n - 1 ==> rm[j] != rm[j + 2]
  {
    forall j | 0 <= j < n - 1
      ensures rm[j] != rm[j + 2]
    {
      if (n - j) % 2 == 1 {
        assert (n - (j + 1)) % 2 == 0;
        assert rm[j].x != rm[j + 1].x && rm[j + 1].x == rm[j + 2].x;
      } else {
        assert (n - (j + 1)) % 2 == 1;
        assert rm[j].y != rm[j + 1].y && rm[j + 1].y == rm[j + 2].y;
      }
    }
  }

  /** Recording one more move, along the axis its number calls for, keeps the list alternating. */
  lemma AlternatesCons(rm: seq<Slot>, n: int, u: Slot)
    requires |rm| == n + 1 && n >= 0 && Alternates(rm, n)
    requires n % 2 == 0 ==> u.y == rm[0].y && u.x != rm[0].x
    requires n % 2 == 1 ==> u.x == rm[0].x && u.y != rm[0].y
    ensures Alternates([u] + rm, n + 1)
  {
  }

  /**
   * The moves the shuffle records alternate between the row and the column of
   * the empty slot, the first one along row 0; no move is empty, and no move
   * goes straight back to the slot the empty slot just left.
   */
  lemma {:induction false} ShuffleShape(columns: int, rows: int, b: Board, picks: seq<int>)
    requires Shaped(columns, rows, b) && b.empty == Slot(0, 0)
    requires Fits(columns, rows, picks)
    ensures var rm := ShuffleRun(columns, rows, Start(b), picks).reverseMoves;
      && |rm| == |picks| + 1
      && Alternates(rm, |picks|)
      && (forall j :: 0 <= j < |picks| - 1 ==> rm[j] != rm[j + 2])
    decreases |picks|
  {
    ShuffleReverseHead(columns, rows, b, picks);
    var rm := ShuffleRun(columns, rows, Start(b), picks).reverseMoves;
    if picks != [] {
      var n := |picks| - 1;
      assert Fits(columns, rows, picks[..n]);
      ShuffleShape(columns, rows, b, picks[..n]);
      ShuffleReverseHead(columns, rows, b, picks[..n]);
      var prev := ShuffleRun(columns, rows, Start(b), picks[..n]);
      CandidatesExact(columns, rows, prev.board.empty, prev.last, prev.lastVertical);
      var r := ShuffleStep(columns, rows, prev, picks[n]);
      assert r == ShuffleRun(columns, rows, Start(b), picks);
      assert rm == [r.board.empty] + prev.reverseMoves;
      AlternatesCons(prev.reverseMoves, n, r.board.empty);
    }
    AlternatesNoBacktrack(rm, |picks|);
  }

  /** The first entry of the reverse list is the empty slot, and its last is (0, 0). */
  lemma {:induction false} ShuffleReverseHead(columns: int, rows: int, b: Board, picks: seq<int>)
    requires Shaped(columns, rows, b) && b.empty == Slot(0, 0)
    requires Fits(columns, rows, picks)
    ensures var r := ShuffleRun(columns, rows, Start(b), picks);
      |r.reverseMoves| == |picks| + 1 && r.reverseMoves[0] == r.board.empty &&
      (|picks| > 0 ==> r.reverseMoves[1] == r.last)
    decreases |picks|
  {
    if picks != [] {
      var n := |picks| - 1;
      assert Fits(columns, rows, picks[..n]);
      ShuffleReverseHead(columns, rows, b, picks[..n]);
    }
  }
}
