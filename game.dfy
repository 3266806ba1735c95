/** The state that `main` in basic.cpp keeps for the automaton: the two
    int grids `world` and `temp_world`, the gate variables `lastTime` and
    `should_update`, and the loops that fill, step, copy back and scan the
    grids. */
module Game {
  import Life
  import Ticker

  class Automaton {
    const height: int
    const width: int
    /** The current generation. */
    const world: array2<int>
    /** The scratch grid the rule pass writes. */
    const tempWorld: array2<int>
    var lastTime: real
    var shouldUpdate: bool

    /** The current generation as a value. */
    ghost var cells: Life.Grid
    /** The generation the constructor seeded, the clock reading at start,
        and the number of steps taken since. */
    ghost var initial: Life.Grid
    ghost var startTime: real
    ghost var generation: nat

    /** The grids have the configured size and are distinct, `world` holds
        `cells`, every cell is 0 or 1, and every dead cell's scratch entry is
        0: the rule pass relies on this for the cells it does not write. */
    ghost predicate Valid()
      reads this`cells, world, tempWorld
    {
      Shaped() &&
      (forall r, c :: 0 <= r < height && 0 <= c < width && world[r, c] == 0 ==> tempWorld[r, c] == 0)
    }

    /** Everything in Valid() but the clause on the scratch grid, which the
        rule pass breaks for the cells it has done. */
    ghost predicate Shaped()
      reads this`cells, world
    {
      world != tempWorld &&
      height > 0 && width > 0 &&
      world.Length0 == height && world.Length1 == width &&
      tempWorld.Length0 == height && tempWorld.Length1 == width &&
      Life.Rectangular(cells) && |cells| == height && Life.Width(cells) == width &&
      Life.Binary(cells) &&
      (forall r, c :: 0 <= r < height && 0 <= c < width ==> world[r, c] == cells[r][c])
    }

    /** Between frames the flag is down, the grid is the seeded grid
        advanced `generation` times, and `lastTime` has moved one interval
        per generation. */
    ghost predicate Paced()
      reads this
    {
      !shouldUpdate &&
      Life.Rectangular(initial) &&
      cells == Life.Evolve(initial, generation) &&
      lastTime == Ticker.Schedule(startTime, generation)
    }

    /** Fills `world` from the draws of the random generator (an even draw
        gives a live cell) and `tempWorld` with zeros; `lastTime` is the
        clock reading at start and the flag is down. */
    constructor (height: int, width: int, draws: seq<seq<nat>>, startTime: real)
      requires height > 0 && width > 0
      requires |draws| == height && forall r :: 0 <= r < height ==> |draws[r]| == width
      ensures fresh(world) && fresh(tempWorld)
      ensures Valid() && Paced()
      ensures this.height == height && this.width == width
      ensures cells == Life.Seeded(draws) && generation == 0
      ensures lastTime == startTime
      ensures forall r, c :: 0 <= r < height && 0 <= c < width ==> tempWorld[r, c] == 0
    {
      this.height, this.width := height, width;
      world := new int[height, width];
      tempWorld := new int[height, width];
      lastTime := startTime;
      shouldUpdate := false;
      new;
      Seed(draws);
      ghost var seeded := Life.Seeded(draws);
      cells := seeded;
      initial := seeded;
      this.startTime := startTime;
      generation := 0;
    }

    /** The initialisation loop: `world` from the draws, `tempWorld` all zero. */
    method Seed(draws: seq<seq<nat>>)
      requires world.Length0 == |draws| && forall r :: 0 <= r < |draws| ==> |draws[r]| == world.Length1
      requires tempWorld.Length0 == world.Length0 && tempWorld.Length1 == world.Length1
      requires world != tempWorld
      modifies world, tempWorld
      ensures forall r, c :: 0 <= r < world.Length0 && 0 <= c < world.Length1 ==> world[r, c] == Life.Seeded(draws)[r][c] && tempWorld[r, c] == 0
    {
      ghost var seeded := Life.Seeded(draws);
      for i := 0 to world.Length0
        invariant forall r, c :: 0 <= r < i && 0 <= c < world.Length1 ==> world[r, c] == seeded[r][c] && tempWorld[r, c] == 0
      {
        for j := 0 to world.Length1
          invariant forall r, c :: 0 <= r < i && 0 <= c < world.Length1 ==> world[r, c] == seeded[r][c] && tempWorld[r, c] == 0
          invariant forall c :: 0 <= c < j ==> world[i, c] == seeded[i][c] && tempWorld[i, c] == 0
        {
          world[i, j] := if draws[i][j] % 2 == 0 then 1 else 0;
          tempWorld[i, j] := 0;
        }
      }
    }

    /** The time check at the top of a frame. */
    method Tick(currentTime: real)
      modifies this`lastTime, this`shouldUpdate
      ensures Ticker.Gate(lastTime, shouldUpdate) == Ticker.Poll(Ticker.Gate(old(lastTime), old(shouldUpdate)), currentTime)
    {
      if currentTime - lastTime >= Ticker.Interval {
        lastTime := lastTime + Ticker.Interval;
        shouldUpdate := true;
      }
    }

    /** One generation: the rule pass reads only `world` and writes
        `tempWorld`, then `tempWorld` is copied back into `world`. */
    method Step()
      requires Valid()
      modifies this`cells, world, tempWorld
      ensures Valid()
      ensures cells == Life.NextGeneration(old(cells))
      ensures forall r, c :: 0 <= r < height && 0 <= c < width ==> tempWorld[r, c] == world[r, c]
    {
      RulePass();
      CopyBack();
      cells := Life.NextGeneration(cells);
    }

    /** The nested loop over every cell that writes the next generation
        into `tempWorld` from `world` alone. */
    method RulePass()
      requires Valid()
      modifies tempWorld
      ensures Shaped()
      ensures forall r, c :: 0 <= r < height && 0 <= c < width ==> tempWorld[r, c] == Life.NextCell(cells, r, c)
    {
      for row := 0 to height
        invariant forall r, c :: 0 <= r < row && 0 <= c < width ==> tempWorld[r, c] == Life.NextCell(cells, r, c)
        invariant forall r, c :: row <= r < height && 0 <= c < width && world[r, c] == 0 ==> tempWorld[r, c] == 0
      {
        for column := 0 to width
          invariant forall r, c :: 0 <= r < row && 0 <= c < width ==> tempWorld[r, c] == Life.NextCell(cells, r, c)
          invariant forall c :: 0 <= c < column ==> tempWorld[row, c] == Life.NextCell(cells, row, c)
          invariant forall c :: column <= c < width && world[row, c] == 0 ==> tempWorld[row, c] == 0
          invariant forall r, c :: row < r < height && 0 <= c < width && world[r, c] == 0 ==> tempWorld[r, c] == 0
        {
          RuleAt(row, column);
        }
      }
    }

    /** The nested loop that copies `tempWorld` back into `world`. */
    method CopyBack()
      requires Shaped()
      modifies world
      ensures forall r, c :: 0 <= r < height && 0 <= c < width ==> world[r, c] == tempWorld[r, c]
    {
      for i := 0 to height
        invariant forall r, c :: 0 <= r < i && 0 <= c < width ==> world[r, c] == tempWorld[r, c]
      {
        for j := 0 to width
          invariant forall r, c :: 0 <= r < i && 0 <= c < width ==> world[r, c] == tempWorld[r, c]
          invariant forall c :: 0 <= c < j ==> world[i, c] == tempWorld[i, c]
        {
          world[i, j] := tempWorld[i, j];
        }
      }
    }

    /** The body of the rule pass for one cell: count the eight wrapped
        neighbours in `world`, then the chain of tests that writes the
        cell's next state into `tempWorld`, or nothing for a dead cell
        whose count is not 3. */
    method RuleAt(row: int, column: int)
      requires Shaped() && 0 <= row < height && 0 <= column < width
      modifies tempWorld
      ensures tempWorld[row, column] == Life.Written(old(tempWorld[row, column]), world[row, column], Life.NeighbourCount(cells, row, column))
      ensures old(world[row, column] == 0 ==> tempWorld[row, column] == 0) ==>
        tempWorld[row, column] == Life.NextCell(cells, row, column)
      ensures forall r, c :: 0 <= r < height && 0 <= c < width && (r != row || c != column) ==> tempWorld[r, c] == old(tempWorld[r, c])
    {
      var isCellAlive := world[row, column];
      var topY := Life.Before(row, height);
      var bottomY := Life.After(row, height);
      var leftX := Life.Before(column, width);
      var rightX := Life.After(column, width);

      var totalAliveNeighbors := 0;
      totalAliveNeighbors := totalAliveNeighbors + world[topY, leftX];
      totalAliveNeighbors := totalAliveNeighbors + world[topY, column];
      totalAliveNeighbors := totalAliveNeighbors + world[topY, rightX];
      totalAliveNeighbors := totalAliveNeighbors + world[row, leftX];
      totalAliveNeighbors := totalAliveNeighbors + world[row, rightX];
      totalAliveNeighbors := totalAliveNeighbors + world[bottomY, leftX];
      totalAliveNeighbors := totalAliveNeighbors + world[bottomY, column];
      totalAliveNeighbors := totalAliveNeighbors + world[bottomY, rightX];
      assert totalAliveNeighbors == Life.NeighbourCount(cells, row, column);

      ghost var prior := tempWorld[row, column];
      if isCellAlive != 0 || prior == 0 {
        Life.WrittenIsLife(prior, isCellAlive, totalAliveNeighbors);
      }
      if isCellAlive != 0 && (totalAliveNeighbors == 0 || totalAliveNeighbors == 1) {
        tempWorld[row, column] := 0;
        return;
      }
      if isCellAlive != 0 && (totalAliveNeighbors == 2 || totalAliveNeighbors == 3) {
        tempWorld[row, column] := 1;
        return;
      }
      if isCellAlive != 0 && totalAliveNeighbors >= 4 {
        tempWorld[row, column] := 0;
        return;
      }
      if isCellAlive == 0 && totalAliveNeighbors == 3 {
        tempWorld[row, column] := 1;
        return;
      }
    }

    /** The coordinates of the live cells of `world`, scanned row by row;
        Life.LiveCoordsExact says what that enumeration holds. */
    method LiveCells() returns (live: seq<Life.Coord>)
      requires Valid()
      ensures live == Life.LiveCoords(cells)
    {
      live := [];
      for i := 0 to height
        invariant live == Life.LiveRows(cells, i)
      {
        for j := 0 to width
          invariant live == Life.LiveRows(cells, i) + Life.RowLive(cells, i, j)
        {
          if world[i, j] != 0 {
            live := live + [Life.Coord(i, j)];
          }
        }
      }
    }

    /** The block run when the flag is up: one generation, then the flag
        is lowered. */
    method Advance()
      requires Valid() && shouldUpdate
      requires Life.Rectangular(initial) && cells == Life.Evolve(initial, generation)
      modifies this`cells, this`generation, this`shouldUpdate, world, tempWorld
      ensures Valid() && !shouldUpdate
      ensures cells == Life.NextGeneration(old(cells)) && generation == old(generation) + 1
      ensures cells == Life.Evolve(initial, generation)
    {
      Step();
      generation := generation + 1;
      shouldUpdate := false;
    }

    /** One pass of the render loop: the time check, at most one step
        followed by lowering the flag, and the scan for the live cells to
        draw. */
    method Frame(currentTime: real) returns (live: seq<Life.Coord>)
      requires Valid() && Paced()
      modifies this`lastTime, this`shouldUpdate, this`cells, this`generation, world, tempWorld
      ensures Valid() && Paced()
      ensures lastTime == Ticker.Frame(old(lastTime), currentTime).0
      ensures Ticker.Frame(old(lastTime), currentTime).1 ==>
        generation == old(generation) + 1 && cells == Life.NextGeneration(old(cells))
      ensures !Ticker.Frame(old(lastTime), currentTime).1 ==>
        generation == old(generation) && cells == old(cells)
      ensures live == Life.LiveCoords(cells)
    {
      ghost var gate := Ticker.Frame(lastTime, currentTime);
      Tick(currentTime);
      assert lastTime == gate.0 && shouldUpdate == gate.1;
      if shouldUpdate {
        Advance();
        assert lastTime == Ticker.Schedule(startTime, generation);
      }
      live := LiveCells();
    }

    /** The render loop: one frame per clock reading in `times`, which
        holds at least one reading since the loop body runs before its exit
        test. Returns the live cells of the last frame. */
    method RenderLoop(times: seq<real>) returns (live: seq<Life.Coord>)
      requires Valid() && Paced() && times != []
      modifies this`lastTime, this`shouldUpdate, this`cells, this`generation, world, tempWorld
      ensures Valid() && Paced()
      ensures lastTime == Ticker.Run(old(lastTime), times).0
      ensures generation == old(generation) + Ticker.Run(old(lastTime), times).1
      ensures live == Life.LiveCoords(cells)
    {
      ghost var total := Ticker.Run(lastTime, times);
      ghost var base := generation;
      live := Frame(times[0]);
      var rest := times[1..];
      while rest != []
        invariant Valid() && Paced()
        invariant Ticker.Run(lastTime, rest).0 == total.0
        invariant generation + Ticker.Run(lastTime, rest).1 == base + total.1
        invariant live == Life.LiveCoords(cells)
        decreases |rest|
      {
        live := Frame(rest[0]);
        rest := rest[1..];
      }
    }
  }

  /** The whole of the automaton's part of the program: seed the grids,
      then run the render loop over the clock readings `times`, starting
      with `lastTime` at the first reading taken before the loop. */
  method Run(height: int, width: int, draws: seq<seq<nat>>, startTime: real, times: seq<real>)
    returns (a: Automaton, live: seq<Life.Coord>)
    requires height > 0 && width > 0
    requires |draws| == height && forall r :: 0 <= r < height ==> |draws[r]| == width
    requires times != []
    ensures fresh(a) && fresh(a.world) && fresh(a.tempWorld)
    ensures a.Valid() && a.height == height && a.width == width
    ensures a.lastTime == Ticker.Run(startTime, times).0
    ensures a.generation == Ticker.Run(startTime, times).1
    ensures a.cells == Life.Evolve(Life.Seeded(draws), a.generation)
    ensures live == Life.LiveCoords(a.cells)
  {
    a := new Automaton(height, width, draws, startTime);
    live := a.RenderLoop(times);
  }
}
