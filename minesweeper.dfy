/** The Minesweeper rule engine: a `columns` by `rows` grid of cells, its
    bomb placement, the right-click toggle, the recursive reveal and the
    win/loss queries. */
module Logic {
  import opened Field
  import opened Neighbours

  /** The number of bombs the engine places. */
  const BombAmount: int := 25

  /** The board a fresh engine starts from: every cell of the `cols` by
      `rows` board a new, empty, hidden cell. */
  function EmptyBoard(cols: int, rows: int): (m: map<Coord, Grid>)
    ensures m.Keys == AllCells(cols, rows)
    ensures forall p :: p in m <==> InBounds(cols, rows, p)
    ensures forall p :: p in m ==> m[p] == NewGrid
  {
    AllCellsInBounds(cols, rows);
    map p | p in AllCells(cols, rows) :: NewGrid
  }

  /** A fresh board has no bombs, nothing visible and no question marks. */
  lemma EmptyBoardViews(cols: int, rows: int)
    ensures Bombs(EmptyBoard(cols, rows)) == {}
    ensures Unrevealed(EmptyBoard(cols, rows)) == AllCells(cols, rows)
    ensures NoQuestionMarks(EmptyBoard(cols, rows))
  {
  }

  /** The bomb placement of `MineFieldTime` on a board `m`, from draw `k`
      on: the draws of `s` are taken in order, a draw that hits a bomb is
      drawn again, any other draw gets a bomb, until `n` more bombs are
      placed or the draws run out. */
  function Place(m: map<Coord, Grid>, s: seq<Coord>, k: nat, n: nat): (r: map<Coord, Grid>)
    requires forall j :: 0 <= j < |s| ==> s[j] in m
    ensures r.Keys == m.Keys
    decreases |s| - k
  {
    if n == 0 || k >= |s| then m
    else if m[s[k]].bomb then Place(m, s, k + 1, n)
    else Place(m[s[k] := m[s[k]].(bomb := true)], s, k + 1, n - 1)
  }

  /** The placement changes nothing but bomb flags. */
  lemma {:induction false} PlaceOnlyPlaces(m: map<Coord, Grid>, s: seq<Coord>, k: nat, n: nat)
    requires forall j :: 0 <= j < |s| ==> s[j] in m
    ensures BombsPlaced(m, Place(m, s, k, n))
    decreases |s| - k
  {
    if n > 0 && k < |s| {
      if m[s[k]].bomb {
        PlaceOnlyPlaces(m, s, k + 1, n);
      } else {
        var m1 := m[s[k] := m[s[k]].(bomb := true)];
        PlaceOne(m, s[k]);
        PlaceOnlyPlaces(m1, s, k + 1, n - 1);
        BombsPlacedTransitive(m, m1, Place(m1, s, k + 1, n - 1));
      }
    }
  }

  /** Every bomb the placement adds lies on a cell drawn from `k` on. */
  lemma {:induction false} PlaceWithinDraws(m: map<Coord, Grid>, s: seq<Coord>, k: nat, n: nat)
    requires forall j :: 0 <= j < |s| ==> s[j] in m
    ensures Bombs(Place(m, s, k, n)) <= Bombs(m) + Drawn(s, k)
    decreases |s| - k
  {
    if n > 0 && k < |s| {
      if m[s[k]].bomb {
        PlaceWithinDraws(m, s, k + 1, n);
      } else {
        PlaceOne(m, s[k]);
        PlaceWithinDraws(m[s[k] := m[s[k]].(bomb := true)], s, k + 1, n - 1);
      }
    }
  }

  /** The number of bombs the placement puts on the board. */
  function Placed(m: map<Coord, Grid>, s: seq<Coord>, k: nat, n: nat): nat
    requires forall j :: 0 <= j < |s| ==> s[j] in m
    decreases |s| - k
  {
    if n == 0 || k >= |s| then 0
    else if m[s[k]].bomb then Placed(m, s, k + 1, n)
    else 1 + Placed(m[s[k] := m[s[k]].(bomb := true)], s, k + 1, n - 1)
  }

  /** The placement adds exactly the bombs it places. */
  lemma {:induction false} PlaceAdds(m: map<Coord, Grid>, s: seq<Coord>, k: nat, n: nat)
    requires forall j :: 0 <= j < |s| ==> s[j] in m
    ensures |Bombs(Place(m, s, k, n))| == |Bombs(m)| + Placed(m, s, k, n)
    decreases |s| - k
  {
    if n > 0 && k < |s| {
      if m[s[k]].bomb {
        PlaceAdds(m, s, k + 1, n);
      } else {
        PlaceAdds(m[s[k] := m[s[k]].(bomb := true)], s, k + 1, n - 1);
        PlaceOne(m, s[k]);
      }
    }
  }

  /** With at least `n` distinct draws from `k` on that do not already hold
      a bomb (the bombs of `m` being `b`), the placement places all `n` bombs. */
  lemma {:induction false} PlacedAll(m: map<Coord, Grid>, s: seq<Coord>, k: nat, n: nat, b: set<Coord>)
    requires forall j :: 0 <= j < |s| ==> s[j] in m
    requires b == Bombs(m) && n <= |Drawn(s, k) - b|
    ensures Placed(m, s, k, n) == n
    decreases |s| - k
  {
    if n > 0 {
      Draw(s, k, n, b);
      if m[s[k]].bomb {
        PlacedAll(m, s, k + 1, n, b);
      } else {
        PlaceOne(m, s[k]);
        PlacedAll(m[s[k] := m[s[k]].(bomb := true)], s, k + 1, n - 1, b + {s[k]});
      }
    }
  }

  /** With at least `n` distinct draws from `k` on that do not already hold
      a bomb, the placement puts exactly `n` more bombs on the board. */
  lemma PlaceCount(m: map<Coord, Grid>, s: seq<Coord>, k: nat, n: nat)
    requires forall j :: 0 <= j < |s| ==> s[j] in m
    requires n <= |Drawn(s, k) - Bombs(m)|
    ensures |Bombs(Place(m, s, k, n))| == |Bombs(m)| + n
  {
    PlaceAdds(m, s, k, n);
    PlacedAll(m, s, k, n, Bombs(m));
  }

  /** One draw of the placement, at position `k`, while `n` bombs remain to
      be placed and enough draws outside the bombs `b` are left: there is a
      draw at `k`, and enough such draws stay for the rest of the placement,
      past a bomb unchanged, else with a bomb put on the drawn cell. */
  lemma Draw(s: seq<Coord>, k: nat, n: nat, b: set<Coord>)
    requires 0 < n <= |Drawn(s, k) - b|
    ensures k < |s|
    ensures s[k] in b ==> n <= |Drawn(s, k + 1) - b|
    ensures s[k] !in b ==> n - 1 <= |Drawn(s, k + 1) - (b + {s[k]})|
  {
    if k < |s| {
      assert Drawn(s, k) == {s[k]} + Drawn(s, k + 1);
      if s[k] in b {
        assert Drawn(s, k) - b == Drawn(s, k + 1) - b;
      } else {
        FreshDraw(Drawn(s, k + 1), b, s[k]);
      }
    }
  }

  lemma FreshDraw(rest: set<Coord>, bombs: set<Coord>, e: Coord)
    requires e !in bombs
    ensures |({e} + rest) - bombs| - 1 <= |rest - (bombs + {e})|
  {
    RemoveMember(({e} + rest) - bombs, e);
    SubsetCard((({e} + rest) - bombs) - {e}, rest - (bombs + {e}));
  }

  /** Draws on the board suffice for the placement on a fresh board when
      at least `BombAmount` of them are distinct. */
  lemma PlacementReady(cols: int, rows: int, s: seq<Coord>)
    requires forall j :: 0 <= j < |s| ==> InBounds(cols, rows, s[j])
    requires BombAmount <= |Drawn(s, 0)|
    ensures BombAmount <= |Drawn(s, 0) - Bombs(EmptyBoard(cols, rows))|
  {
    EmptyBoardViews(cols, rows);
    assert Drawn(s, 0) - Bombs(EmptyBoard(cols, rows)) == Drawn(s, 0);
  }

  /** Bombs placed on a fresh board: exactly `BombAmount` of them, all on
      drawn cells, and all cells are still hidden. */
  lemma FilledBoard(cols: int, rows: int, s: seq<Coord>)
    requires forall j :: 0 <= j < |s| ==> InBounds(cols, rows, s[j])
    requires BombAmount <= |Drawn(s, 0)|
    ensures |Bombs(Place(EmptyBoard(cols, rows), s, 0, BombAmount))| == BombAmount
    ensures Bombs(Place(EmptyBoard(cols, rows), s, 0, BombAmount)) <= Drawn(s, 0)
    ensures Unrevealed(Place(EmptyBoard(cols, rows), s, 0, BombAmount)) == AllCells(cols, rows)
    ensures forall p :: p in Place(EmptyBoard(cols, rows), s, 0, BombAmount) ==>
              Place(EmptyBoard(cols, rows), s, 0, BombAmount)[p].fieldState == HIDDEN
  {
    var m0 := EmptyBoard(cols, rows);
    PlacementReady(cols, rows, s);
    EmptyBoardViews(cols, rows);
    PlaceCount(m0, s, 0, BombAmount);
    PlaceWithinDraws(m0, s, 0, BombAmount);
    PlaceOnlyPlaces(m0, s, 0, BombAmount);
    var m := Place(m0, s, 0, BombAmount);
    PlacedViews(m0, m);
    forall p | p in m
      ensures m[p].fieldState == HIDDEN
    {
      assert p in m0 && m0[p] == NewGrid;
    }
  }

  /** On a fresh board with its bombs placed, the safe unrevealed cells are
      all cells but the `BombAmount` bombs. */
  lemma FilledCount(cols: nat, rows: nat, s: seq<Coord>)
    requires forall j :: 0 <= j < |s| ==> InBounds(cols, rows, s[j])
    requires BombAmount <= |Drawn(s, 0)|
    ensures SafeUnrevealed(Place(EmptyBoard(cols, rows), s, 0, BombAmount)) == Area(cols, rows) - BombAmount
  {
    FilledBoard(cols, rows, s);
    var m := Place(EmptyBoard(cols, rows), s, 0, BombAmount);
    assert Bombs(m) <= AllCells(cols, rows) by {
      PlaceOnlyPlaces(EmptyBoard(cols, rows), s, 0, BombAmount);
    }
    AllCellsCount(cols, rows);
    assert AllCells(cols, rows) == (AllCells(cols, rows) - Bombs(m)) + Bombs(m);
  }

  /** What a reveal in progress has achieved since its starting cell was
      shown, when the unrevealed cells were `base` and the counter `b0`: the
      unrevealed cells are now `u` and the counter `b`, the counter has
      dropped by one per cell revealed since, none of those cells holds a
      bomb, and every one of them is closed. */
  ghost predicate Advanced(cols: int, rows: int, bombs: set<Coord>, base: set<Coord>,
                           u: set<Coord>, b0: int, b: int)
  {
    u <= base && b == b0 - |base - u| && (base - u) !! bombs &&
    forall c :: c in base - u ==> Closed(cols, rows, bombs, u, c)
  }

  lemma AdvancedStart(cols: int, rows: int, bombs: set<Coord>, base: set<Coord>, b: int)
    ensures Advanced(cols, rows, bombs, base, base, b, b)
  {
    assert base - base == {};
  }

  /** Revealing the safe unrevealed cell `n` with one decrement, followed by
      a cascade from `n` that decrements once per further cell and leaves
      every cell it revealed closed, extends the progress of the enclosing
      reveal. */
  lemma AdvanceByNeighbour(cols: int, rows: int, bombs: set<Coord>, base: set<Coord>,
                           u1: set<Coord>, u2: set<Coord>, n: Coord, b0: int, b1: int, b2: int)
    requires Advanced(cols, rows, bombs, base, u1, b0, b1)
    requires n in u1 && n !in bombs && u2 <= u1 && n !in u2
    requires b2 == b1 - 1 - |u1 - u2 - {n}| && (u1 - u2 - {n}) !! bombs
    requires forall c :: c in u1 - u2 + {n} ==> Closed(cols, rows, bombs, u2, c)
    ensures Advanced(cols, rows, bombs, base, u2, b0, b2)
  {
    RemoveMember(u1 - u2, n);
    DiffChain(base, u1, u2);
    assert base - u2 == (base - u1) + (u1 - u2);
    assert u1 - u2 == (u1 - u2 - {n}) + {n};
    forall c | c in base - u2
      ensures Closed(cols, rows, bombs, u2, c)
    {
      if c in base - u1 {
        ClosedMonotone(cols, rows, bombs, u1, u2, c);
      }
    }
  }

  /** A cascade from `p` that started from the unrevealed cells `u0`, showed
      `p`, made progress and left `p` closed has revealed, besides `p`, only
      safe cells, one decrement each, and left all of them closed. */
  lemma CascadeDone(cols: int, rows: int, bombs: set<Coord>, u0: set<Coord>, p: Coord,
                    u: set<Coord>, b0: int, b: int)
    requires Advanced(cols, rows, bombs, u0 - {p}, u, b0, b)
    requires Closed(cols, rows, bombs, u, p)
    ensures p !in u
    ensures b == b0 - |u0 - u - {p}|
    ensures (u0 - u - {p}) !! bombs
    ensures forall c :: c in u0 - u + {p} ==> Closed(cols, rows, bombs, u, c)
  {
    assert u0 - u - {p} == (u0 - {p}) - u;
    assert u0 - u + {p} == ((u0 - {p}) - u) + {p};
  }

  /** Cells revealed in two stages, each reached from `p`, are reached from `p`. */
  lemma ReachedChain(cols: int, rows: int, bombs: set<Coord>, u0: set<Coord>, p: Coord,
                     a: set<Coord>, b: set<Coord>, c: set<Coord>)
    requires c <= b <= a
    requires Reached(cols, rows, bombs, u0, p, a - b) && Reached(cols, rows, bombs, u0, p, b - c)
    ensures Reached(cols, rows, bombs, u0, p, a - c)
  {
    assert a - c == (a - b) + (b - c);
  }

  /** `p` itself together with cells reached from `p` since it was shown. */
  lemma ReachedWithStart(cols: int, rows: int, bombs: set<Coord>, u0: set<Coord>, p: Coord, u: set<Coord>)
    requires u <= u0 - {p} && Reached(cols, rows, bombs, u0, p, (u0 - {p}) - u)
    ensures Reached(cols, rows, bombs, u0, p, u0 - u)
  {
    assert Reaches(cols, rows, bombs, u0, p, p);
    assert u0 - u <= ((u0 - {p}) - u) + {p};
  }

  /** The counter after a click on `p`: one decrement per cell the cascade
      revealed besides `p`, and one more. When `p` was an unrevealed safe
      cell, that is one per cell revealed, so a counter that matched the
      unrevealed safe cells still does, and only then. */
  lemma RevealAccounting(bombs: set<Coord>, u0: set<Coord>, u1: set<Coord>, p: Coord, b0: int, b1: int, b: int)
    requires u1 <= u0 && p !in u1
    requires b1 == b0 - |u0 - u1 - {p}| && b == b1 - 1
    requires (u0 - u1 - {p}) !! bombs
    ensures b == b0 - |u0 - u1| - (if p in u0 then 0 else 1)
    ensures b0 == |u0 - bombs| ==> (b == |u1 - bombs| <==> p in u0 && p !in bombs)
  {
    if p in u0 {
      RemoveMember(u0 - u1, p);
      if p !in bombs {
        assert (u0 - u1) !! bombs;
        SafeRevealCount(u0, u1, bombs);
      } else {
        assert u0 - bombs == (u0 - {p}) - bombs;
        assert (u0 - {p}) - u1 == u0 - u1 - {p};
        SafeRevealCount(u0 - {p}, u1, bombs);
      }
    } else {
      assert u0 - u1 - {p} == u0 - u1;
      SafeRevealCount(u0, u1, bombs);
    }
  }

  /** Allocates the grid and fills it with new cells row by row; `m` is the
      same board as a map. */
  method NewCells(columns: nat, rows: nat) returns (g: array2<Grid>, ghost m: map<Coord, Grid>)
    ensures fresh(g) && g.Length0 == columns && g.Length1 == rows
    ensures forall a, b :: 0 <= a < columns && 0 <= b < rows ==> g[a, b] == NewGrid
    ensures m == EmptyBoard(columns, rows)
    ensures forall a, b :: 0 <= a < columns && 0 <= b < rows ==> (a, b) in m && m[(a, b)] == g[a, b]
  {
    g := new Grid[columns, rows];
    for i := 0 to rows
      invariant forall a, b :: 0 <= a < columns && 0 <= b < i ==> g[a, b] == NewGrid
    {
      for j := 0 to columns
        invariant forall a, b :: 0 <= a < columns && 0 <= b < i ==> g[a, b] == NewGrid
        invariant forall a :: 0 <= a < j ==> g[a, i] == NewGrid
      {
        g[j, i] := NewGrid;
      }
    }
    m := EmptyBoard(columns, rows);
    forall a, b | 0 <= a < columns && 0 <= b < rows
      ensures (a, b) in m && m[(a, b)] == g[a, b]
    {
      AllCellsMembership(columns, rows, (a, b));
    }
  }

  class Minesweeper {
    /** The engine's counter of safe cells still to reveal. */
    var blockAmount: int
    /** Flags available; never changed after construction. */
    const flagAmount: int := BombAmount
    /** Bombs minus flags; never changed after construction. */
    const remainingBombAmount: int := BombAmount - flagAmount
    /** Set once a bomb cell has been revealed. */
    var isBomb: bool

    /** The cells, indexed [x, y] with x the column and y the row. */
    const grid: array2<Grid>
    const rowsCount: int
    const columnsCount: int

    /** The board as a map from coordinates to cells, kept equal to `grid`. */
    ghost var cells: map<Coord, Grid>

    /** The object invariant: the grid has the board's dimensions, `cells`
        mirrors it, and no cell carries the question-mark state. */
    ghost predicate Valid()
      reads this`cells, grid
    {
      grid.Length0 == columnsCount && grid.Length1 == rowsCount &&
      cells.Keys == AllCells(columnsCount, rowsCount) &&
      (forall i, j :: 0 <= i < columnsCount && 0 <= j < rowsCount ==> (i, j) in cells && cells[(i, j)] == grid[i, j]) &&
      NoQuestionMarks(cells)
    }

    /** `blockAmount` counts exactly the safe cells that are not visible. */
    ghost predicate CounterMatches()
      reads this`blockAmount, this`cells
    {
      blockAmount == SafeUnrevealed(cells)
    }

    /** Builds a board whose bombs are placed by `MineFieldTime` from the
        coordinate samples `samples`, which stand for the draws of the random
        number generator. */
    constructor (rows: int, columns: int, samples: seq<Coord>)
      requires 0 <= rows && 0 <= columns && BombAmount <= Area(columns, rows)
      requires forall k :: 0 <= k < |samples| ==> InBounds(columns, rows, samples[k])
      requires BombAmount <= |Drawn(samples, 0)|
      ensures Valid() && fresh(grid)
      ensures rowsCount == rows && columnsCount == columns
      ensures !isBomb
      ensures cells == Place(EmptyBoard(columns, rows), samples, 0, BombAmount)
      ensures blockAmount == Area(columns, rows) - BombAmount
      ensures CounterMatches()
    {
      rowsCount := rows;
      columnsCount := columns;
      var g;
      ghost var m;
      g, m := NewCells(columns, rows);
      grid := g;
      cells := m;
      new;
      Populate(samples);
    }

    /** The constructor's work once the empty board exists: clears the
        game-over flag, places the bombs, then sets the counter of safe
        cells still to reveal. */
    method Populate(samples: seq<Coord>)
      requires Valid() && cells == EmptyBoard(columnsCount, rowsCount)
      requires BombAmount <= Area(columnsCount, rowsCount)
      requires forall k :: 0 <= k < |samples| ==> InBounds(columnsCount, rowsCount, samples[k])
      requires BombAmount <= |Drawn(samples, 0)|
      modifies grid, this`cells, this`blockAmount, this`isBomb
      ensures Valid() && !isBomb
      ensures cells == Place(EmptyBoard(columnsCount, rowsCount), samples, 0, BombAmount)
      ensures blockAmount == Area(columnsCount, rowsCount) - BombAmount
      ensures CounterMatches()
    {
      isBomb := false;
      PlacementReady(columnsCount, rowsCount, samples);
      var _ := MineFieldTime(rowsCount, columnsCount, samples);
      blockAmount := Area(columnsCount, rowsCount) - BombAmount;
      FilledCount(columnsCount, rowsCount, samples);
    }

    /** Places `BombAmount` bombs on distinct cells, drawing coordinates from
        `samples` in order and skipping a draw that hits a bomb already there.
        Nothing but bomb flags changes. */
    method MineFieldTime(rows: int, columns: int, samples: seq<Coord>) returns (g: array2<Grid>)
      requires Valid()
      requires columns <= columnsCount && rows <= rowsCount
      requires forall k :: 0 <= k < |samples| ==> InBounds(columns, rows, samples[k])
      requires BombAmount <= |Drawn(samples, 0) - Bombs(cells)|
      modifies grid, this`cells
      ensures g == grid && Valid()
      ensures forall k :: 0 <= k < |samples| ==> samples[k] in old(cells)
      ensures cells == Place(old(cells), samples, 0, BombAmount)
    {
      var i := 0;
      var k := 0;
      while i < BombAmount
        invariant 0 <= i <= BombAmount && 0 <= k <= |samples|
        invariant Valid()
        invariant forall j :: 0 <= j < |samples| ==> samples[j] in cells
        invariant Place(cells, samples, k, BombAmount - i) == Place(old(cells), samples, 0, BombAmount)
        invariant BombAmount - i <= |Drawn(samples, k) - Bombs(cells)|
        decreases |samples| - k
      {
        Draw(samples, k, BombAmount - i, Bombs(cells));
        var x := samples[k].0;
        var y := samples[k].1;
        if grid[x, y].bomb {
          i := i - 1;
        } else {
          PlaceOne(cells, (x, y));
          Store(x, y, grid[x, y].(bomb := true));
        }
        i := i + 1;
        k := k + 1;
      }
      g := grid;
    }

    /** Writes `v` into cell (x, y) of the array, keeping `cells` in step. */
    method Store(x: int, y: int, v: Grid)
      requires Valid() && InBounds(columnsCount, rowsCount, (x, y))
      requires HIDDEN <= v.fieldState <= FLAG
      modifies grid, this`cells
      ensures Valid()
      ensures cells == old(cells)[(x, y) := v]
    {
      grid[x, y] := v;
      cells := cells[(x, y) := v];
    }

    /** The field state of (x, y): 0 hidden, 1 visible, 2 flag. */
    function GetField(x: int, y: int): (r: int)
      reads this`cells, grid
      requires Valid() && InBounds(columnsCount, rowsCount, (x, y))
      ensures r == cells[(x, y)].fieldState
      ensures HIDDEN <= r <= FLAG
      ensures r == VISIBLE <==> (x, y) !in Unrevealed(cells)
    {
      grid[x, y].fieldState
    }

    /** Right click: a flag is taken off, any other state becomes a flag. */
    method ToggleFieldState(x: int, y: int)
      requires Valid() && InBounds(columnsCount, rowsCount, (x, y))
      modifies grid, this`cells
      ensures Valid()
      ensures cells == old(cells)[(x, y) := old(cells)[(x, y)].(fieldState := ToggledState(old(cells)[(x, y)].fieldState))]
      ensures Bombs(cells) == old(Bombs(cells))
      ensures old(CounterMatches()) ==>
                (CounterMatches() <==> !(old(cells)[(x, y)].fieldState == VISIBLE && !cells[(x, y)].bomb))
    {
      ghost var before := cells;
      if grid[x, y].fieldState == FLAG {
        Store(x, y, grid[x, y].(fieldState := HIDDEN));
      } else {
        Store(x, y, grid[x, y].(fieldState := FLAG));
      }
      ToggleCount(before, (x, y));
    }

    /** Left click: records a loss when (x, y) holds a bomb, reveals from
        (x, y), and decrements the counter once more. */
    method Reveal(x: int, y: int)
      requires Valid() && InBounds(columnsCount, rowsCount, (x, y))
      modifies grid, this`cells, this`blockAmount, this`isBomb
      ensures Valid()
      ensures isBomb == (old(isBomb) || (x, y) in old(Bombs(cells)))
      ensures RevealsOnly(old(cells), cells)
      ensures (x, y) !in Unrevealed(cells)
      ensures blockAmount == old(blockAmount) - |old(Unrevealed(cells)) - Unrevealed(cells)|
                             - (if (x, y) in old(Unrevealed(cells)) then 0 else 1)
      ensures (old(Unrevealed(cells)) - Unrevealed(cells) - {(x, y)}) !! Bombs(cells)
      ensures forall c :: c in old(Unrevealed(cells)) - Unrevealed(cells) + {(x, y)} ==>
                Closed(columnsCount, rowsCount, Bombs(cells), Unrevealed(cells), c)
      ensures forall c :: c in old(Unrevealed(cells)) ==>
                (c !in Unrevealed(cells) <==> Reaches(columnsCount, rowsCount, Bombs(cells), old(Unrevealed(cells)), (x, y), c))
      ensures old(CounterMatches()) ==>
                (CounterMatches() <==> (x, y) in old(Unrevealed(cells)) && (x, y) !in old(Bombs(cells)))
    {
      if grid[x, y].bomb {
        isBomb := true;
      }
      RecursiveReveal(x, y);
      ghost var b1 := blockAmount;
      blockAmount := blockAmount - 1;
      RevealsOnlyViews(old(cells), cells);
      RevealAccounting(Bombs(cells), old(Unrevealed(cells)), Unrevealed(cells), (x, y),
                       old(blockAmount), b1, blockAmount);
    }

    /** Makes (x, y) visible and, when none of its admitted neighbours holds
        a bomb, reveals every admitted neighbour that is neither a bomb nor
        visible, each with one decrement of the counter. The engine writes
        the eight neighbours out as eight guarded blocks of the same shape in
        the order `SourceOrder`; here they are one loop over that order. */
    method RecursiveReveal(x: int, y: int)
      requires Valid() && InBounds(columnsCount, rowsCount, (x, y))
      modifies grid, this`cells, this`blockAmount
      decreases |Unrevealed(cells) - {(x, y)}|, 1
      ensures Valid()
      ensures RevealsOnly(old(cells), cells)
      ensures (x, y) !in Unrevealed(cells)
      ensures blockAmount == old(blockAmount) - |old(Unrevealed(cells)) - Unrevealed(cells) - {(x, y)}|
      ensures (old(Unrevealed(cells)) - Unrevealed(cells) - {(x, y)}) !! Bombs(cells)
      ensures forall c :: c in old(Unrevealed(cells)) - Unrevealed(cells) + {(x, y)} ==>
                Closed(columnsCount, rowsCount, Bombs(cells), Unrevealed(cells), c)
      ensures Reached(columnsCount, rowsCount, Bombs(cells), old(Unrevealed(cells)), (x, y),
                      old(Unrevealed(cells)) - Unrevealed(cells))
      ensures forall c :: c in old(Unrevealed(cells)) ==>
                (c !in Unrevealed(cells) <==> Reaches(columnsCount, rowsCount, Bombs(cells), old(Unrevealed(cells)), (x, y), c))
      ensures AdjacentBombs(columnsCount, rowsCount, Bombs(cells), x, y) != 0 ==>
                cells == old(cells)[(x, y) := old(cells)[(x, y)].(fieldState := VISIBLE)]
    {
      ghost var m0 := cells;
      ghost var bombs := Bombs(m0);
      Store(x, y, grid[x, y].(fieldState := VISIBLE));
      ShowOne(m0, (x, y));
      RevealsOnlyViews(m0, cells);
      ghost var base := Unrevealed(cells);
      ghost var b1 := blockAmount;
      AdvancedStart(columnsCount, rowsCount, bombs, base, b1);
      var count := GetAdjacentBombCount(x, y);
      if count == 0 {
        for k := 0 to |SourceOrder|
          invariant Valid() && RevealsOnly(m0, cells)
          invariant Advanced(columnsCount, rowsCount, bombs, base, Unrevealed(cells), b1, blockAmount)
          invariant Reached(columnsCount, rowsCount, bombs, Unrevealed(m0), (x, y), base - Unrevealed(cells))
          invariant forall j :: 0 <= j < k && Admits(columnsCount, rowsCount, x, y, SourceOrder[j]) &&
                                Neighbour(x, y, SourceOrder[j]) !in bombs ==>
                                  Neighbour(x, y, SourceOrder[j]) !in Unrevealed(cells)
        {
          ghost var u1 := Unrevealed(cells);
          SubsetCard(u1, base);
          RevealNeighbour(x, y, SourceOrder[k], m0, base, b1);
          HandledPrefix(columnsCount, rowsCount, x, y, SourceOrder, k, bombs, u1, Unrevealed(cells));
          ReachedChain(columnsCount, rowsCount, bombs, Unrevealed(m0), (x, y), base, u1, Unrevealed(cells));
        }
        AlongRevealed(columnsCount, rowsCount, x, y, SourceOrder, bombs, Unrevealed(cells));
      }
      RevealsOnlyViews(m0, cells);
      CascadeDone(columnsCount, rowsCount, bombs, Unrevealed(m0), (x, y), Unrevealed(cells), b1, blockAmount);
      ReachedWithStart(columnsCount, rowsCount, bombs, Unrevealed(m0), (x, y), Unrevealed(cells));
      RevealedIsReach(columnsCount, rowsCount, bombs, Unrevealed(m0), Unrevealed(cells), (x, y));
    }

    /** One of the eight guarded blocks of `RecursiveReveal`: the neighbour of
        (x, y) in direction `d` is revealed, with one decrement of the
        counter, when the corner flags admit it and it is neither a bomb nor
        visible. `m0`, `base` and `b0` describe the enclosing reveal: the board
        on entry, the unrevealed cells once (x, y) was shown, and the counter
        at that moment. */
    method RevealNeighbour(x: int, y: int, d: Direction, ghost m0: map<Coord, Grid>,
                           ghost base: set<Coord>, ghost b0: int)
      requires Valid() && InBounds(columnsCount, rowsCount, (x, y))
      requires RevealsOnly(m0, cells)
      requires Advanced(columnsCount, rowsCount, Bombs(m0), base, Unrevealed(cells), b0, blockAmount)
      modifies grid, this`cells, this`blockAmount
      decreases |Unrevealed(cells)|, 0
      ensures Valid() && RevealsOnly(m0, cells)
      ensures Unrevealed(cells) <= old(Unrevealed(cells))
      ensures Advanced(columnsCount, rowsCount, Bombs(m0), base, Unrevealed(cells), b0, blockAmount)
      ensures Admits(columnsCount, rowsCount, x, y, d) && Neighbour(x, y, d) !in Bombs(m0) ==>
                Neighbour(x, y, d) !in Unrevealed(cells)
      ensures !(Admits(columnsCount, rowsCount, x, y, d) && Neighbour(x, y, d) !in Bombs(m0) &&
                Neighbour(x, y, d) in old(Unrevealed(cells))) ==>
                cells == old(cells) && blockAmount == old(blockAmount)
      ensures AdjacentBombs(columnsCount, rowsCount, Bombs(m0), x, y) == 0 ==>
                Reached(columnsCount, rowsCount, Bombs(m0), Unrevealed(m0), (x, y),
                        old(Unrevealed(cells)) - Unrevealed(cells))
    {
      var n := Neighbour(x, y, d);
      RevealsOnlyViews(m0, cells);
      if Admits(columnsCount, rowsCount, x, y, d) {
        AdmitsInBounds(columnsCount, rowsCount, x, y, d);
      }
      if Admits(columnsCount, rowsCount, x, y, d) && !grid[n.0, n.1].bomb && grid[n.0, n.1].fieldState != VISIBLE {
        ghost var m1 := cells;
        ghost var u1 := Unrevealed(m1);
        ghost var b1 := blockAmount;
        blockAmount := blockAmount - 1;
        RemoveMember(u1, n);
        RecursiveReveal(n.0, n.1);
        RevealsOnlyViews(m1, cells);
        RevealsOnlyTransitive(m0, m1, cells);
        AdvanceByNeighbour(columnsCount, rowsCount, Bombs(m0), base, u1, Unrevealed(cells), n, b0, b1, blockAmount);
        if AdjacentBombs(columnsCount, rowsCount, Bombs(m0), x, y) == 0 {
          assert d in SourceOrder;
          AlongContains(columnsCount, rowsCount, x, y, SourceOrder, d);
          ReachExtend(columnsCount, rowsCount, Bombs(m0), Unrevealed(m0), u1, (x, y), n, u1 - Unrevealed(cells));
        }
      }
    }

    /** The number of bombs among the neighbours of (x, y) admitted by the
        corner flags. */
    function GetAdjacentBombCount(x: int, y: int): (r: int)
      reads this`cells, grid
      requires Valid() && InBounds(columnsCount, rowsCount, (x, y))
      ensures 0 <= r <= 8
      ensures r == AdjacentBombs(columnsCount, rowsCount, Bombs(cells), x, y)
    {
      var topleft := x != 0 && y != 0;
      var topright := x != columnsCount - 1 && y != 0;
      var botleft := x != 0 && y != rowsCount - 1;
      var botright := x != columnsCount - 1 && y != rowsCount - 1;
      FlagTerms(columnsCount, rowsCount, Bombs(cells), x, y);
      BombIf(topleft, x - 1, y - 1)                    // top left
      + BombIf(topright, x + 1, y - 1)                 // top right
      + BombIf(botright, x + 1, y + 1)                 // bot right
      + BombIf(botleft, x - 1, y + 1)                  // bot left
      + BombIf(topleft || topright, x, y - 1)          // top
      + BombIf(botright || botleft, x, y + 1)          // bot
      + BombIf(botleft || topleft, x - 1, y)           // left
      + BombIf(topright || botright, x + 1, y)         // right
    }

    /** One guarded increment of the count: 1 when `guard` holds and (a, b)
        holds a bomb. It keeps the engine's literal terms on the grid;
        `Neighbours.FlagTerms` relates them to `Neighbours.BombTerm`. */
    function BombIf(guard: bool, a: int, b: int): (r: int)
      reads this`cells, grid
      requires Valid() && (guard ==> InBounds(columnsCount, rowsCount, (a, b)))
      ensures r == if guard && (a, b) in Bombs(cells) then 1 else 0
    {
      if guard then (if grid[a, b].bomb then 1 else 0) else 0
    }

    /** Whether (x, y) holds a bomb. */
    function IsBombOnPosition(x: int, y: int): (r: bool)
      reads this`cells, grid
      requires Valid() && InBounds(columnsCount, rowsCount, (x, y))
      ensures r <==> (x, y) in Bombs(cells)
    {
      grid[x, y].bomb
    }

    /** The number of bombs the engine places. */
    function GetBombCount(): (r: int)
      ensures r == 25
    {
      BombAmount
    }

    /** Bombs minus flags as the engine reports it: always zero, since neither
        operand is ever updated when flags are placed. */
    function GetRemainingBombCount(): (r: int)
      ensures r == 0
    {
      remainingBombAmount
    }

    function DidWin(): (r: bool)
      reads this`blockAmount
      ensures r <==> blockAmount == 0
    {
      blockAmount == 0
    }

    function DidLose(): (r: bool)
      reads this`isBomb
      ensures r <==> isBomb
    {
      isBomb
    }

    function GetRows(): (r: int)
      reads this`cells, grid
      requires Valid()
      ensures r == grid.Length1
    {
      rowsCount
    }

    function GetColumns(): (r: int)
      reads this`cells, grid
      requires Valid()
      ensures r == grid.Length0
    {
      columnsCount
    }

    /** While the counter matches, the game is won exactly when every cell
        without a bomb is visible, whatever flags are placed. */
    lemma WinMeansSafeCellsRevealed()
      requires Valid() && CounterMatches()
      ensures DidWin() <==> forall p :: p in cells && !cells[p].bomb ==> cells[p].fieldState == VISIBLE
    {
      var safe := Unrevealed(cells) - Bombs(cells);
      if DidWin() {
        assert safe == {};
        forall p | p in cells && !cells[p].bomb
          ensures cells[p].fieldState == VISIBLE
        {
          assert p !in safe;
        }
      } else {
        assert safe != {};
        var p :| p in safe;
        assert p in cells && !cells[p].bomb && cells[p].fieldState != VISIBLE;
      }
    }
  }
}
