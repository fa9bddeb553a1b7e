/**
 * The grid sizes offered for an image (TileGrid.createSuggestions), as a
 * function of the scaled image's width and height: every column count from 3
 * to 7 whose tiles are at least MIN_TILE_SIZE pixels wide, paired with every
 * such row count, columns in the outer loop; null (None) when there is none.
 */
module Suggestions {
  import opened Options
  import opened Slots

  const MIN_TILE_SIZE: int := 100
  const MIN_COUNT: int := 3
  const MAX_COUNT: int := 7

  /** A suggested grid size (the Java code returns these as java.awt.Point). */
  datatype GridSize = GridSize(columns: int, rows: int)

  /** Cutting extent pixels into count tiles leaves tiles of at least MIN_TILE_SIZE pixels. */
  predicate Roomy(extent: int, count: int)
    requires count > 0
  {
    JavaDiv(extent, count) >= MIN_TILE_SIZE
  }

  /** The counts in [MIN_COUNT, hi) that are roomy for extent, in increasing order. */
  function CountsBelow(extent: int, hi: int): (r: seq<int>)
    ensures forall k :: 0 <= k < |r| ==> MIN_COUNT <= r[k] < hi
    decreases hi
  {
    if hi <= MIN_COUNT then []
    else CountsBelow(extent, hi - 1) + (if Roomy(extent, hi - 1) then [hi - 1] else [])
  }

  /** The counts from MIN_COUNT to MAX_COUNT that are roomy for extent. */
  function Counts(extent: int): seq<int>
  {
    CountsBelow(extent, MAX_COUNT + 1)
  }

  /** Column count c paired with each row count, in order. */
  function Row(c: int, rs: seq<int>): (r: seq<GridSize>)
    ensures |r| == |rs| && forall k :: 0 <= k < |rs| ==> r[k] == GridSize(c, rs[k])
  {
    seq(|rs|, k requires 0 <= k < |rs| => GridSize(c, rs[k]))
  }

  /** Every column count paired with every row count, column counts outermost. */
  function Combine(cs: seq<int>, rs: seq<int>): seq<GridSize>
    decreases |cs|
  {
    if cs == [] then [] else Combine(cs[..|cs| - 1], rs) + Row(cs[|cs| - 1], rs)
  }

  /** The suggestions for a scaled image of the given size; None when there are none. */
  function Suggest(width: int, height: int): (r: Option<seq<GridSize>>)
    ensures r.Some? ==> r.value != []
  {
    var combinations := Combine(Counts(width), Counts(height));
    if |combinations| == 0 then None else Some(combinations)
  }

  /** One counting loop: the counts from MIN_COUNT to MAX_COUNT whose tiles are roomy. */
  method RoomyCounts(extent: int) returns (possible: seq<int>)
    ensures possible == Counts(extent)
  {
    possible := [];
    for count := MIN_COUNT to MAX_COUNT + 1
      invariant possible == CountsBelow(extent, count)
    {
      var tileSize := JavaDiv(extent, count);
      if tileSize >= MIN_TILE_SIZE {
        possible := possible + [count];
      }
    }
  }

  /** The pairing loops: each column count with each row count, column counts outermost. */
  method Pairings(possibleColumns: seq<int>, possibleRows: seq<int>) returns (combinations: seq<GridSize>)
    ensures combinations == Combine(possibleColumns, possibleRows)
  {
    combinations := [];
    for i := 0 to |possibleColumns|
      invariant combinations == Combine(possibleColumns[..i], possibleRows)
    {
      assert possibleColumns[..i + 1][..i] == possibleColumns[..i];
      for j := 0 to |possibleRows|
        invariant combinations == Combine(possibleColumns[..i], possibleRows) + Row(possibleColumns[i], possibleRows[..j])
      {
        combinations := combinations + [GridSize(possibleColumns[i], possibleRows[j])];
      }
      assert possibleRows[..|possibleRows|] == possibleRows;
    }
    assert possibleColumns[..|possibleColumns|] == possibleColumns;
  }

  /** The column loop, the row loop, the pairing and the final null check. */
  method CreateSuggestions(width: int, height: int) returns (r: Option<seq<GridSize>>)
    ensures r == Suggest(width, height)
  {
    var possibleColumns := RoomyCounts(width);
    var possibleRows := RoomyCounts(height);
    var combinations := Pairings(possibleColumns, possibleRows);
    if |combinations| == 0 {
      return None;
    }
    return Some(combinations);
  }

  /** A count is listed exactly when it lies in [MIN_COUNT, hi) and is roomy. */
  lemma {:induction false} CountsBelowMember(extent: int, hi: int, c: int)
    ensures c in CountsBelow(extent, hi) <==> MIN_COUNT <= c < hi && Roomy(extent, c)
    decreases hi
  {
    if hi > MIN_COUNT {
      CountsBelowMember(extent, hi - 1, c);
    }
  }

  predicate Increasing(s: seq<int>)
  {
    forall i, j :: 0 <= i < j < |s| ==> s[i] < s[j]
  }

  lemma {:induction false} CountsBelowIncreasing(extent: int, hi: int)
    ensures Increasing(CountsBelow(extent, hi))
    decreases hi
  {
    if hi > MIN_COUNT {
      CountsBelowIncreasing(extent, hi - 1);
    }
  }

  /** A size is in the pairing exactly when its column count and its row count are. */
  lemma {:induction false} CombineMember(cs: seq<int>, rs: seq<int>, g: GridSize)
    ensures g in Combine(cs, rs) <==> g.columns in cs && g.rows in rs
    decreases |cs|
  {
    if cs != [] {
      var init := cs[..|cs| - 1];
      CombineMember(init, rs, g);
      assert cs == init + [cs[|cs| - 1]];
      if g in Row(cs[|cs| - 1], rs) {
        var k :| 0 <= k < |rs| && Row(cs[|cs| - 1], rs)[k] == g;
        assert rs[k] == g.rows;
      }
    }
  }

  lemma {:induction false} CombineLength(cs: seq<int>, rs: seq<int>)
    ensures |Combine(cs, rs)| == |cs| * |rs|
    decreases |cs|
  {
    if cs != [] {
      CombineLength(cs[..|cs| - 1], rs);
      assert |cs| * |rs| == (|cs| - 1) * |rs| + |rs|;
    }
  }

  /** Column-major lexicographic order on grid sizes. */
  predicate Before(a: GridSize, b: GridSize)
  {
    a.columns < b.columns || (a.columns == b.columns && a.rows < b.rows)
  }

  /** Strictly increasing in column-major order. */
  predicate Ordered(gs: seq<GridSize>)
  {
    forall i, j :: 0 <= i < j < |gs| ==> Before(gs[i], gs[j])
  }

  /** The pairing lists sizes in strictly increasing order, columns first, when both lists increase. */
  lemma {:induction false} CombineOrdered(cs: seq<int>, rs: seq<int>)
    requires Increasing(cs) && Increasing(rs)
    ensures Ordered(Combine(cs, rs))
    decreases |cs|
  {
    if cs != [] {
      var init, last := cs[..|cs| - 1], cs[|cs| - 1];
      CombineOrdered(init, rs);
      var a, b := Combine(init, rs), Row(last, rs);
      forall i | 0 <= i < |a|
        ensures a[i].columns < last
      {
        assert a[i] in a;
        CombineMember(init, rs, a[i]);
        var k :| 0 <= k < |init| && init[k] == a[i].columns;
        assert init[k] == cs[k];
      }
      var r := a + b;
      forall i, j | 0 <= i < j < |r|
        ensures Before(r[i], r[j])
      {
        if j < |a| {
          assert r[i] == a[i] && r[j] == a[j];
          assert Before(a[i], a[j]);
        } else if i < |a| {
          assert r[i] == a[i] && r[j] == b[j - |a|];
          assert a[i].columns < last;
        } else {
          assert r[i] == b[i - |a|] && r[j] == b[j - |a|];
          assert rs[i - |a|] < rs[j - |a|];
        }
      }
    }
  }

  /** Roominess is downward closed: fewer tiles over the same extent are at least as large. */
  lemma FewerTilesRoomier(extent: int, c: int, d: int)
    requires 0 < d <= c && Roomy(extent, c)
    ensures Roomy(extent, d)
  {
    var q := JavaDiv(extent, c);
    MulMonotone(0, q, c);
    MulMonotone(d, c, q);
    var p := JavaDiv(extent, d);
    if p < q {
      MulMonotone(p + 1, q, d);
      assert false;
    }
  }

  /**
   * Exactly the sizes with both counts in [3, 7] and tiles of at least
   * MIN_TILE_SIZE pixels each way are suggested, in strictly increasing order
   * with the column count outermost.
   */
  lemma SuggestMember(width: int, height: int, g: GridSize)
    ensures var s := Suggest(width, height);
      (s.Some? && g in s.value) <==>
        (MIN_COUNT <= g.columns <= MAX_COUNT && MIN_COUNT <= g.rows <= MAX_COUNT
         && Roomy(width, g.columns) && Roomy(height, g.rows))
  {
    CountsBelowMember(width, MAX_COUNT + 1, g.columns);
    CountsBelowMember(height, MAX_COUNT + 1, g.rows);
    CombineMember(Counts(width), Counts(height), g);
  }

  lemma SuggestOrdered(width: int, height: int)
    ensures Suggest(width, height).Some? ==> Ordered(Suggest(width, height).value)
  {
    CountsBelowIncreasing(width, MAX_COUNT + 1);
    CountsBelowIncreasing(height, MAX_COUNT + 1);
    CombineOrdered(Counts(width), Counts(height));
  }

  /** Some count qualifies exactly when 3 tiles are roomy, by downward closure. */
  lemma CountsEmpty(extent: int)
    ensures Counts(extent) == [] <==> !Roomy(extent, MIN_COUNT)
  {
    CountsBelowMember(extent, MAX_COUNT + 1, MIN_COUNT);
    if Counts(extent) != [] {
      var c := Counts(extent)[0];
      assert c in Counts(extent);
      CountsBelowMember(extent, MAX_COUNT + 1, c);
      FewerTilesRoomier(extent, c, MIN_COUNT);
    }
  }

  /**
   * There are no suggestions exactly when no column count or no row count
   * qualifies, which by downward closure is when even 3 tiles are too small.
   */
  lemma SuggestNone(width: int, height: int)
    ensures Suggest(width, height).None? <==> (Counts(width) == [] || Counts(height) == [])
    ensures Suggest(width, height).None? <==> (!Roomy(width, MIN_COUNT) || !Roomy(height, MIN_COUNT))
  {
    var cs, rs := Counts(width), Counts(height);
    CombineLength(cs, rs);
    CountsEmpty(width);
    CountsEmpty(height);
    if cs != [] && rs != [] {
      MulMonotone(1, |cs|, |rs|);
    }
  }
}
