/** Conway's Game of Life on a torus, as the pure specification of the
    automaton that basic.cpp runs in place on two int arrays.
    A grid is a sequence of rows; a cell is an int that the source treats
    as alive when it is nonzero and keeps at 0 or 1. */
module Life {

  datatype Option<T> = None | Some(value: T)

  /** A (row, column) position in the grid, 0-indexed. */
  datatype Coord = Coord(row: int, column: int)

  type Grid = seq<seq<int>>

  /** At least one row and one column, and every row as wide as the first. */
  predicate Rectangular(g: Grid) {
    |g| > 0 && |g[0]| > 0 && forall r :: 0 <= r < |g| ==> |g[r]| == |g[0]|
  }

  function Width(g: Grid): int
    requires |g| > 0
  {
    |g[0]|
  }

  predicate InGrid(g: Grid, row: int, column: int)
    requires Rectangular(g)
  {
    0 <= row < |g| && 0 <= column < Width(g)
  }

  /** Every cell holds 0 (dead) or 1 (alive). */
  predicate Binary(g: Grid) {
    forall r, c :: 0 <= r < |g| && 0 <= c < |g[r]| ==> g[r][c] == 0 || g[r][c] == 1
  }

  // ---------------------------------------------------------------------
  // Toroidal topology

  /** The index before i on a ring of n positions: `(i - 1 + n) % n`.
      Both operands are non-negative, so C's `%` and Dafny's agree. */
  function Before(i: int, n: int): (k: int)
    requires 0 <= i < n
    ensures 0 <= k < n
    ensures k == (i - 1) % n
    ensures k == if i == 0 then n - 1 else i - 1
  {
    BeforeMod(i, n);
    (i - 1 + n) % n
  }

  lemma BeforeMod(i: int, n: int)
    requires 0 <= i < n
    ensures (i - 1 + n) % n == (i - 1) % n == if i == 0 then n - 1 else i - 1
  {
  }

  /** The index after i on a ring of n positions: `(i + 1) % n`. */
  function After(i: int, n: int): (k: int)
    requires 0 <= i < n
    ensures 0 <= k < n
    ensures k == (i + 1) % n
    ensures k == if i == n - 1 then 0 else i + 1
  {
    (i + 1) % n
  }

  /** The sum of the eight wrapped neighbours of (row, column), read in
      the order of the source: top row, the two sides, bottom row. */
  function NeighbourCount(g: Grid, row: int, column: int): (n: int)
    requires Rectangular(g) && InGrid(g, row, column)
    ensures Binary(g) ==> 0 <= n <= 8
  {
    var top, bottom := Before(row, |g|), After(row, |g|);
    var left, right := Before(column, Width(g)), After(column, Width(g));
    g[top][left] + g[top][column] + g[top][right]
    + g[row][left] + g[row][right]
    + g[bottom][left] + g[bottom][column] + g[bottom][right]
  }

  /** A step of -1, 0 or 1 along one axis. */
  type Delta = d: int | -1 <= d <= 1

  /** One position past either end of a ring of n positions wraps to the
      other end. */
  function Wrap(i: int, n: int): (k: int)
    requires -1 <= i <= n && n > 0
    ensures 0 <= k < n
  {
    if i < 0 then n - 1 else if i == n then 0 else i
  }

  /** The offsets of the eight neighbours of a cell. */
  const Offsets: seq<(Delta, Delta)> :=
    [(-1, -1), (-1, 0), (-1, 1), (0, -1), (0, 1), (1, -1), (1, 0), (1, 1)]

  /** Reference count: the sum of the cells at `offsets` from
      (row, column), each coordinate wrapped around its axis. */
  function OffsetSum(g: Grid, row: int, column: int, offsets: seq<(Delta, Delta)>): int
    requires Rectangular(g) && InGrid(g, row, column)
  {
    if offsets == [] then 0
    else
      g[Wrap(row + offsets[0].0, |g|)][Wrap(column + offsets[0].1, Width(g))]
      + OffsetSum(g, row, column, offsets[1..])
  }

  /** The count the source computes is the sum over the neighbour-offset
      table. */
  lemma NeighbourCountIsOffsetSum(g: Grid, row: int, column: int)
    requires Rectangular(g) && InGrid(g, row, column)
    ensures NeighbourCount(g, row, column) == OffsetSum(g, row, column, Offsets)
  {
    var y, x := |g|, Width(g);
    var top, bottom, left, right := Before(row, y), After(row, y), Before(column, x), After(column, x);
    var tail: seq<(Delta, Delta)> := [(1, -1), (1, 0), (1, 1)];
    var middle: seq<(Delta, Delta)> := [(0, -1), (0, 1)] + tail;
    assert Offsets == [(-1, -1), (-1, 0), (-1, 1)] + middle;
    assert tail == [(1, -1), (1, 0), (1, 1)] + [];
    OffsetSumTriple(g, row, column, 1, [], 0);
    var t := OffsetSum(g, row, column, tail);
    assert middle[1..] == [(0, 1)] + tail && middle[1..][1..] == tail;
    assert OffsetSum(g, row, column, middle[1..]) == g[row][right] + t;
    assert OffsetSum(g, row, column, middle) == g[row][left] + g[row][right] + t;
    OffsetSumTriple(g, row, column, -1, middle, OffsetSum(g, row, column, middle));
  }

  /** The three offsets (dr, -1), (dr, 0), (dr, 1) followed by `rest`. */
  lemma OffsetSumTriple(g: Grid, row: int, column: int, dr: Delta, rest: seq<(Delta, Delta)>, s: int)
    requires Rectangular(g) && InGrid(g, row, column)
    requires OffsetSum(g, row, column, rest) == s
    ensures var r, x := Wrap(row + dr, |g|), Width(g);
      OffsetSum(g, row, column, [(dr, -1), (dr, 0), (dr, 1)] + rest)
      == g[r][Before(column, x)] + g[r][column] + g[r][After(column, x)] + s
  {
    var os: seq<(Delta, Delta)> := [(dr, -1), (dr, 0), (dr, 1)] + rest;
    assert os[1..] == [(dr, 0), (dr, 1)] + rest;
    assert os[1..][1..] == [(dr, 1)] + rest;
    assert os[1..][1..][1..] == rest;
    var r, x := Wrap(row + dr, |g|), Width(g);
    assert Wrap(column + -1, x) == Before(column, x) && Wrap(column + 1, x) == After(column, x);
    assert OffsetSum(g, row, column, os[1..][1..]) == g[r][After(column, x)] + s;
  }

  // ---------------------------------------------------------------------
  // The rule

  /** Conway's B3/S23 rule: a live cell survives with 2 or 3 neighbours,
      a dead cell is born with exactly 3. */
  predicate LivesOn(alive: bool, count: int) {
    if alive then count == 2 || count == 3 else count == 3
  }

  function CellValue(alive: bool): (v: int)
    ensures v == 0 || v == 1
    ensures (v != 0) == alive
  {
    if alive then 1 else 0
  }

  /** The chain of `if ... continue` tests in the source: Some(v) when it
      writes v into the scratch grid, None when it writes nothing. */
  function Rule(cell: int, count: int): Option<int> {
    if cell != 0 && (count == 0 || count == 1) then Some(0)
    else if cell != 0 && (count == 2 || count == 3) then Some(1)
    else if cell != 0 && count >= 4 then Some(0)
    else if cell == 0 && count == 3 then Some(1)
    else None
  }

  /** The scratch entry after the rule has run over a cell whose scratch
      entry was `prior`. */
  function Written(prior: int, cell: int, count: int): int {
    match Rule(cell, count)
    case Some(v) => v
    case None => prior
  }

  /** On a 0/1 cell with a count from a 0/1 grid, the chain writes exactly
      the B3/S23 outcome, except for a dead cell whose count is not 3,
      where it writes nothing and B3/S23 says the cell stays dead. */
  lemma RuleAgreesWithLife(cell: int, count: int)
    requires cell == 0 || cell == 1
    requires 0 <= count <= 8
    ensures Rule(cell, count).Some? ==> Rule(cell, count).value == CellValue(LivesOn(cell == 1, count))
    ensures Rule(cell, count).None? <==> cell == 0 && count != 3
    ensures Rule(cell, count).None? ==> !LivesOn(cell == 1, count)
  {
  }

  /** A live cell with 0 or 1 neighbours dies, with 2 or 3 lives on, with
      4 or more dies; a dead cell with 3 is born. */
  lemma RuleCases(count: int)
    ensures (count == 0 || count == 1) ==> Rule(1, count) == Some(0)
    ensures (count == 2 || count == 3) ==> Rule(1, count) == Some(1)
    ensures count >= 4 ==> Rule(1, count) == Some(0)
    ensures Rule(0, count) == if count == 3 then Some(1) else None
  {
  }

  /** The scratch entry ends correct provided a dead cell's scratch entry
      was already 0 before the rule ran. */
  lemma WrittenIsLife(prior: int, cell: int, count: int)
    requires cell == 0 || cell == 1
    requires 0 <= count <= 8
    requires cell == 0 ==> prior == 0
    ensures Written(prior, cell, count) == CellValue(LivesOn(cell == 1, count))
  {
    RuleAgreesWithLife(cell, count);
  }

  /** Without that precondition the chain is wrong: a stale 1 in the
      scratch grid would bring an isolated dead cell to life. */
  lemma StaleScratchResurrects()
    ensures Written(1, 0, 0) == 1 && !LivesOn(false, 0)
  {
  }

  // ---------------------------------------------------------------------
  // Generations

  /** The next state of one cell, computed from the previous generation only. */
  function NextCell(g: Grid, row: int, column: int): (v: int)
    requires Rectangular(g) && InGrid(g, row, column)
    ensures v == 0 || v == 1
  {
    CellValue(LivesOn(g[row][column] != 0, NeighbourCount(g, row, column)))
  }

  /** The next generation: every cell updated from the same previous grid. */
  function NextGeneration(g: Grid): (h: Grid)
    requires Rectangular(g)
    ensures Rectangular(h) && |h| == |g| && Width(h) == Width(g)
    ensures Binary(h)
    ensures forall r, c :: 0 <= r < |g| && 0 <= c < Width(g) ==> h[r][c] == NextCell(g, r, c)
  {
    seq(|g|, r requires 0 <= r < |g| =>
      seq(Width(g), c requires 0 <= c < Width(g) => NextCell(g, r, c)))
  }

  /** The cell and its eight wrapped neighbours, row by row. */
  function Window(g: Grid, row: int, column: int): (w: seq<int>)
    requires Rectangular(g) && InGrid(g, row, column)
    ensures |w| == 9 && w[4] == g[row][column]
  {
    var top, bottom := Before(row, |g|), After(row, |g|);
    var left, right := Before(column, Width(g)), After(column, Width(g));
    [g[top][left], g[top][column], g[top][right],
     g[row][left], g[row][column], g[row][right],
     g[bottom][left], g[bottom][column], g[bottom][right]]
  }

  /** A cell's next state depends only on the cell and its eight wrapped
      neighbours in the previous generation. */
  lemma NextCellIsLocal(g: Grid, h: Grid, row: int, column: int)
    requires Rectangular(g) && Rectangular(h) && |g| == |h| && Width(g) == Width(h)
    requires InGrid(g, row, column)
    requires Window(g, row, column) == Window(h, row, column)
    ensures NextCell(g, row, column) == NextCell(h, row, column)
  {
  }

  /** The grid after n generations. */
  function Evolve(g: Grid, n: nat): (h: Grid)
    requires Rectangular(g)
    ensures Rectangular(h) && |h| == |g| && Width(h) == Width(g)
    ensures n > 0 ==> Binary(h)
    decreases n
  {
    if n == 0 then g else NextGeneration(Evolve(g, n - 1))
  }

  /** The initial grid from the draws of the random generator:
      an even draw gives a live cell. */
  function Seeded(draws: seq<seq<nat>>): (g: Grid)
    ensures |g| == |draws|
    ensures forall r :: 0 <= r < |draws| ==> |g[r]| == |draws[r]|
    ensures Binary(g)
    ensures forall r, c :: 0 <= r < |draws| && 0 <= c < |draws[r]| ==> (g[r][c] == 1 <==> draws[r][c] % 2 == 0)
  {
    seq(|draws|, r requires 0 <= r < |draws| =>
      seq(|draws[r]|, c requires 0 <= c < |draws[r]| => if draws[r][c] % 2 == 0 then 1 else 0))
  }

  // ---------------------------------------------------------------------
  // Live-cell enumeration

  /** Row-major order: a earlier row, or the same row and an earlier column. */
  predicate Precedes(a: Coord, b: Coord) {
    a.row < b.row || (a.row == b.row && a.column < b.column)
  }

  predicate Increasing(cs: seq<Coord>) {
    forall a, b :: 0 <= a < b < |cs| ==> Precedes(cs[a], cs[b])
  }

  predicate Alive(g: Grid, p: Coord) {
    0 <= p.row < |g| && 0 <= p.column < |g[p.row]| && g[p.row][p.column] != 0
  }

  /** The live cells in columns [0, upto) of one row, left to right. */
  function RowLive(g: Grid, row: int, upto: int): seq<Coord>
    requires 0 <= row < |g| && 0 <= upto <= |g[row]|
    decreases upto
  {
    if upto == 0 then []
    else RowLive(g, row, upto - 1) + (if g[row][upto - 1] != 0 then [Coord(row, upto - 1)] else [])
  }

  /** The live cells in rows [0, upto), in row-major order. */
  function LiveRows(g: Grid, upto: int): seq<Coord>
    requires Rectangular(g) && 0 <= upto <= |g|
    decreases upto
  {
    if upto == 0 then [] else LiveRows(g, upto - 1) + RowLive(g, upto - 1, Width(g))
  }

  /** Every live cell of the grid in row-major order. */
  function LiveCoords(g: Grid): seq<Coord>
    requires Rectangular(g)
  {
    LiveRows(g, |g|)
  }

  /** Everything the scan of a row lists is a live cell of that row in
      the columns scanned, in strictly increasing column order. */
  lemma {:induction false} RowLiveSound(g: Grid, row: int, upto: int)
    requires 0 <= row < |g| && 0 <= upto <= |g[row]|
    ensures forall k :: 0 <= k < |RowLive(g, row, upto)| ==>
      RowLive(g, row, upto)[k].row == row && RowLive(g, row, upto)[k].column < upto && Alive(g, RowLive(g, row, upto)[k])
    ensures Increasing(RowLive(g, row, upto))
    decreases upto
  {
    if upto > 0 {
      RowLiveSound(g, row, upto - 1);
      var prefix := RowLive(g, row, upto - 1);
      var last := if g[row][upto - 1] != 0 then [Coord(row, upto - 1)] else [];
      ConcatIncreasing(prefix, last);
      assert RowLive(g, row, upto) == prefix + last;
    }
  }

  /** A live cell of a row in the columns scanned is listed. */
  lemma {:induction false} RowLiveHas(g: Grid, row: int, upto: int, column: int)
    requires 0 <= row < |g| && 0 <= column < upto <= |g[row]|
    requires g[row][column] != 0
    ensures Coord(row, column) in RowLive(g, row, upto)
    decreases upto
  {
    if column < upto - 1 {
      RowLiveHas(g, row, upto - 1, column);
    }
  }

  /** Everything the scan of the first rows lists is a live cell of
      those rows, in strictly increasing row-major order. */
  lemma {:induction false} LiveRowsSound(g: Grid, upto: int)
    requires Rectangular(g) && 0 <= upto <= |g|
    ensures forall k :: 0 <= k < |LiveRows(g, upto)| ==>
      LiveRows(g, upto)[k].row < upto && Alive(g, LiveRows(g, upto)[k])
    ensures Increasing(LiveRows(g, upto))
    decreases upto
  {
    if upto > 0 {
      var xs, ys := LiveRows(g, upto - 1), RowLive(g, upto - 1, Width(g));
      LiveRowsSound(g, upto - 1);
      RowLiveSound(g, upto - 1, Width(g));
      ConcatIncreasing(xs, ys);
      var zs := xs + ys;
      assert LiveRows(g, upto) == zs;
      forall k | 0 <= k < |zs|
        ensures zs[k].row < upto && Alive(g, zs[k])
      {
        if k >= |xs| {
          assert zs[k] == ys[k - |xs|];
        }
      }
    }
  }

  /** A live cell of the first rows is listed by their scan. */
  lemma {:induction false} LiveRowsHas(g: Grid, upto: int, row: int, column: int)
    requires Rectangular(g) && 0 <= row < upto <= |g| && 0 <= column < Width(g)
    requires g[row][column] != 0
    ensures Coord(row, column) in LiveRows(g, upto)
    decreases upto
  {
    if row < upto - 1 {
      LiveRowsHas(g, upto - 1, row, column);
    } else {
      RowLiveHas(g, upto - 1, Width(g), column);
    }
  }

  lemma ConcatIncreasing(xs: seq<Coord>, ys: seq<Coord>)
    requires Increasing(xs) && Increasing(ys)
    requires forall a, b :: 0 <= a < |xs| && 0 <= b < |ys| ==> Precedes(xs[a], ys[b])
    ensures Increasing(xs + ys)
  {
    var zs := xs + ys;
    forall a, b | 0 <= a < b < |zs|
      ensures Precedes(zs[a], zs[b])
    {
      if b < |xs| {
      } else if a >= |xs| {
        assert zs[a] == ys[a - |xs|] && zs[b] == ys[b - |xs|];
      } else {
        assert zs[a] == xs[a] && zs[b] == ys[b - |xs|];
      }
    }
  }

  /** The enumeration yields each live cell, and nothing else, exactly
      once, in row-major order. */
  lemma LiveCoordsExact(g: Grid)
    requires Rectangular(g)
    ensures forall p :: p in LiveCoords(g) <==> Alive(g, p)
    ensures Increasing(LiveCoords(g))
    ensures forall a, b :: 0 <= a < b < |LiveCoords(g)| ==> LiveCoords(g)[a] != LiveCoords(g)[b]
  {
    LiveRowsSound(g, |g|);
    var cs := LiveCoords(g);
    forall p | p in cs
      ensures Alive(g, p)
    {
      var k :| 0 <= k < |cs| && cs[k] == p;
    }
    forall p | Alive(g, p)
      ensures p in cs
    {
      LiveRowsHas(g, |g|, p.row, p.column);
    }
  }

  // ---------------------------------------------------------------------
  // Worked cases

  /** On a 5x5 grid whose only live cell is (4, 4), the count at (0, 0)
      sees that cell through both wrap-arounds. */
  lemma CornerSeesOppositeCorner()
    ensures var z := [0, 0, 0, 0, 0];
      var g := [z, z, z, z, [0, 0, 0, 0, 1]];
      NeighbourCount(g, 0, 0) == 1
  {
  }

  /** On a 1x1 torus all eight neighbours are the cell itself. */
  lemma SingleCellTorus()
    ensures NeighbourCount([[1]], 0, 0) == 8
    ensures NextGeneration([[1]]) == [[0]]
  {
    var h := NextGeneration([[1]]);
    assert NextCell([[1]], 0, 0) == 0;
    assert h[0] == [0];
  }

  /** A horizontal blinker in the middle of a 5x5 grid turns vertical. */
  lemma BlinkerFlips()
    ensures var z := [0, 0, 0, 0, 0];
      NextGeneration([z, z, [0, 1, 1, 1, 0], z, z])
      == [z, [0, 0, 1, 0, 0], [0, 0, 1, 0, 0], [0, 0, 1, 0, 0], z]
  {
    var z := [0, 0, 0, 0, 0];
    var h := [z, z, [0, 1, 1, 1, 0], z, z];
    var c := [0, 0, 1, 0, 0];
    var v := [z, c, c, c, z];
    var n := NextGeneration(h);
    forall r | 0 <= r < 5
      ensures n[r] == v[r]
    {
      forall k | 0 <= k < 5
        ensures n[r][k] == v[r][k]
      {
        assert n[r][k] == NextCell(h, r, k);
      }
    }
  }
}
