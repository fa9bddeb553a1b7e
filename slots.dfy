/** Option: the value or the absence of it, where the Java code returns null. */
module Options {
  datatype Option<+T> = None | Some(value: T)
}

/**
 * Slot addresses of the puzzle grid and the arithmetic that maps them onto the
 * flat tile array (slot (x, y) lives at index x + y * columns).
 */
module Slots {

  /** A slot address (column, row); the Java code uses java.awt.Point for these. */
  datatype Slot = Slot(x: int, y: int)

  predicate InGrid(columns: int, rows: int, s: Slot)
  {
    0 <= s.x < columns && 0 <= s.y < rows
  }

  /** The array index of a slot. */
  function Index(columns: int, s: Slot): int
  {
    s.x + s.y * columns
  }

  /** The slot of an array index. */
  function SlotAt(columns: int, i: int): Slot
    requires columns > 0
  {
    Slot(i % columns, i / columns)
  }

  /**
   * The two maps are inverse bijections between the slots of a columns x rows
   * grid and the indices 0 .. columns*rows - 1.
   */
  ghost predicate Indexing(columns: int, rows: int)
  {
    && columns >= 1 && rows >= 1
    && (forall s :: InGrid(columns, rows, s) ==>
          0 <= Index(columns, s) < columns * rows && SlotAt(columns, Index(columns, s)) == s)
    && (forall i :: 0 <= i < columns * rows ==>
          InGrid(columns, rows, SlotAt(columns, i)) && Index(columns, SlotAt(columns, i)) == i)
  }

  lemma MulMonotone(a: int, b: int, c: int)
    requires a <= b && c >= 0
    ensures a * c <= b * c
  {
    assert b * c - a * c == (b - a) * c;
  }

  /** Euclidean division with a known quotient and remainder. */
  lemma DivModUnique(n: int, c: int, q: int, r: int)
    requires c > 0 && 0 <= r < c && n == q * c + r
    ensures n / c == q && n % c == r
  {
    var q', r' := n / c, n % c;
    assert n == q' * c + r';
    if q' < q {
      MulMonotone(q' + 1, q, c);
      assert false;
    } else if q < q' {
      MulMonotone(q + 1, q', c);
      assert false;
    }
  }

  lemma {:induction false} IndexingHolds(columns: int, rows: int)
    requires columns >= 1 && rows >= 1
    ensures Indexing(columns, rows)
  {
    forall s | InGrid(columns, rows, s)
      ensures 0 <= Index(columns, s) < columns * rows && SlotAt(columns, Index(columns, s)) == s
    {
      MulMonotone(0, s.y, columns);
      MulMonotone(s.y + 1, rows, columns);
      DivModUnique(Index(columns, s), columns, s.y, s.x);
    }
    forall i | 0 <= i < columns * rows
      ensures InGrid(columns, rows, SlotAt(columns, i)) && Index(columns, SlotAt(columns, i)) == i
    {
      var q := i / columns;
      if q >= rows {
        MulMonotone(rows, q, columns);
        assert false;
      }
      if q < 0 {
        MulMonotone(q, -1, columns);
        assert false;
      }
    }
  }

  /** Java's integer division, which truncates toward zero (d > 0). */
  function JavaDiv(n: int, d: int): (q: int)
    requires d > 0
    ensures n >= 0 ==> q == n / d
    ensures n >= 0 ==> q * d <= n < (q + 1) * d
    ensures n < 0 ==> (q - 1) * d < n <= q * d
  {
    if n >= 0 then n / d else -((-n) / d)
  }

  /**
   * A pixel coordinate in [0, size * count) falls in cell [0, count); a pixel in
   * (-size, 0) truncates to cell 0 as well.
   */
  lemma {:induction false} PixelToCell(n: int, size: int, count: int)
    requires size > 0 && count > 0 && -size < n < size * count
    ensures 0 <= JavaDiv(n, size) < count
  {
    var q := JavaDiv(n, size);
    if n >= 0 {
      if q < 0 {
        MulMonotone(q + 1, 0, size);
        assert false;
      }
      if q >= count {
        MulMonotone(count, q, size);
        assert false;
      }
    } else {
      DivModUnique(-n, size, 0, -n);
    }
  }
}
