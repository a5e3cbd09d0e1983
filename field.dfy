/** Cells of the mine field and the value-level views of a whole board that
    the specification of the engine is written in. A board is seen as a map
    from coordinates to cells; the engine keeps such a map in step with its
    two-dimensional array. */
module Field {

  /** A board coordinate (x, y): x indexes columns, y indexes rows. */
  type Coord = (int, int)

  /** The field states as the engine encodes them. */
  const HIDDEN: int := 0
  const VISIBLE: int := 1
  const FLAG: int := 2
  const QUESTION: int := 3

  /** One cell of the board: whether it holds a bomb, and its field state. */
  datatype Grid = Grid(bomb: bool, fieldState: int)

  /** The cell a freshly constructed `Grid` object stands for. The `Grid`
      class is not part of this model; its defaults are assumed to be
      "no bomb" and "hidden". */
  const NewGrid: Grid := Grid(false, HIDDEN)

  predicate InBounds(cols: int, rows: int, p: Coord) {
    0 <= p.0 < cols && 0 <= p.1 < rows
  }

  /** Every coordinate of a `cols` by `rows` board, column by column. */
  function AllCells(cols: int, rows: int): set<Coord>
    decreases cols
  {
    if cols <= 0 then {} else AllCells(cols - 1, rows) + Column(cols - 1, rows)
  }

  /** The coordinates of column `x`, row by row. */
  function Column(x: int, rows: int): set<Coord>
    decreases rows
  {
    if rows <= 0 then {} else Column(x, rows - 1) + {(x, rows - 1)}
  }

  /** The distinct coordinates drawn at positions `k` onwards of `s`. */
  function Drawn(s: seq<Coord>, k: nat): set<Coord>
    decreases |s| - k
  {
    if k >= |s| then {} else {s[k]} + Drawn(s, k + 1)
  }

  /** The cells of a board that hold a bomb. */
  function Bombs(m: map<Coord, Grid>): set<Coord> {
    set p | p in m && m[p].bomb
  }

  /** The cells of a board that are not visible (hidden, flagged or questioned). */
  function Unrevealed(m: map<Coord, Grid>): set<Coord> {
    set p | p in m && m[p].fieldState != VISIBLE
  }

  /** The number of cells that are neither visible nor bombs. */
  function SafeUnrevealed(m: map<Coord, Grid>): nat {
    |Unrevealed(m) - Bombs(m)|
  }

  /** Every cell of a board is hidden, visible or flagged: the question-mark
      state is documented but nothing ever produces it. */
  ghost predicate NoQuestionMarks(m: map<Coord, Grid>) {
    forall p :: p in m ==> HIDDEN <= m[p].fieldState <= FLAG
  }

  /** `m1` arises from `m0` by making some cells visible and changing nothing else. */
  ghost predicate RevealsOnly(m0: map<Coord, Grid>, m1: map<Coord, Grid>) {
    m1.Keys == m0.Keys &&
    forall p :: p in m0 ==> m1[p] == m0[p] || m1[p] == m0[p].(fieldState := VISIBLE)
  }

  /** `m1` arises from `m0` by putting bombs on some cells and changing nothing else. */
  ghost predicate BombsPlaced(m0: map<Coord, Grid>, m1: map<Coord, Grid>) {
    m1.Keys == m0.Keys &&
    forall p :: p in m0 ==> m1[p] == m0[p] || m1[p] == m0[p].(bomb := true)
  }

  /** The right-click transition on one field state: a flag is taken off,
      every other state (hidden, question mark, and also visible) becomes a flag. */
  function ToggledState(s: int): (r: int)
    ensures r == HIDDEN || r == FLAG
    ensures r == HIDDEN <==> s == FLAG
  {
    if s == FLAG then HIDDEN else FLAG
  }

  /** The transition the engine's documentation describes: 0 -> 1 -> 2 -> 3 -> 0. */
  function DocumentedToggle(s: int): int
    requires HIDDEN <= s <= QUESTION
  {
    (s + 1) % 4
  }

  /** Toggling twice restores a hidden or flagged cell, and turns a
      questioned or visible cell into a hidden one. */
  lemma ToggleTwice(s: int)
    ensures ToggledState(ToggledState(s)) == (if s == FLAG then FLAG else HIDDEN)
  {
  }

  /** The right-click transition agrees with the documented four-state cycle
      only on a visible cell, which it turns into a flag. */
  lemma ToggleAgainstDocumentation(s: int)
    requires HIDDEN <= s <= QUESTION
    ensures ToggledState(s) == DocumentedToggle(s) <==> s == VISIBLE
    ensures ToggledState(VISIBLE) == FLAG
  {
  }

  // ---------------------------------------------------------------------
  // Views of a board and how the engine's updates change them

  lemma {:induction false} ColumnMembership(x: int, rows: int, p: Coord)
    ensures p in Column(x, rows) <==> p.0 == x && 0 <= p.1 < rows
    decreases rows
  {
    if rows > 0 {
      ColumnMembership(x, rows - 1, p);
    }
  }

  /** The coordinates of a board are exactly the in-bounds ones. */
  lemma {:induction false} AllCellsMembership(cols: int, rows: int, p: Coord)
    ensures p in AllCells(cols, rows) <==> InBounds(cols, rows, p)
    decreases cols
  {
    if cols > 0 {
      AllCellsMembership(cols - 1, rows, p);
      ColumnMembership(cols - 1, rows, p);
    }
  }

  lemma AllCellsInBounds(cols: int, rows: int)
    ensures forall p :: p in AllCells(cols, rows) <==> InBounds(cols, rows, p)
  {
    forall p: Coord
      ensures p in AllCells(cols, rows) <==> InBounds(cols, rows, p)
    {
      AllCellsMembership(cols, rows, p);
    }
  }

  lemma {:induction false} ColumnCount(x: int, rows: nat)
    ensures |Column(x, rows)| == rows
  {
    if rows > 0 {
      ColumnCount(x, rows - 1);
      ColumnMembership(x, rows - 1, (x, rows - 1));
    }
  }

  /** The number of cells of a `cols` by `rows` board, `cols * rows`,
      written as a sum of columns so that proofs about it stay linear. */
  function Area(cols: nat, rows: int): int {
    if cols == 0 then 0 else Area(cols - 1, rows) + rows
  }

  lemma {:induction false} AreaIsProduct(cols: nat, rows: int)
    ensures Area(cols, rows) == cols * rows
  {
    if cols > 0 {
      AreaIsProduct(cols - 1, rows);
      assert cols * rows == (cols - 1) * rows + rows;
    }
  }

  /** The first `k` cells of a column at or beyond `cols` lie outside a
      board of `cols` columns. */
  lemma {:induction false} ColumnBeyond(x: int, k: int, cols: int, rows: int)
    requires x >= cols
    ensures Column(x, k) !! AllCells(cols, rows)
    decreases k
  {
    if k > 0 {
      ColumnBeyond(x, k - 1, cols, rows);
      AllCellsMembership(cols, rows, (x, k - 1));
    }
  }

  /** A `cols` by `rows` board has exactly `cols * rows` cells. */
  lemma {:induction false} AllCellsCount(cols: nat, rows: nat)
    ensures |AllCells(cols, rows)| == Area(cols, rows)
  {
    if cols > 0 {
      AllCellsCount(cols - 1, rows);
      ColumnCount(cols - 1, rows);
      ColumnBeyond(cols - 1, rows, cols - 1, rows);
    }
  }

  lemma RevealsOnlyTransitive(m0: map<Coord, Grid>, m1: map<Coord, Grid>, m2: map<Coord, Grid>)
    requires RevealsOnly(m0, m1) && RevealsOnly(m1, m2)
    ensures RevealsOnly(m0, m2)
  {
  }

  /** Revealing cells keeps every bomb where it was, only shrinks the set of
      unrevealed cells, and never produces a question mark. */
  lemma RevealsOnlyViews(m0: map<Coord, Grid>, m1: map<Coord, Grid>)
    requires RevealsOnly(m0, m1)
    ensures Bombs(m1) == Bombs(m0)
    ensures Unrevealed(m1) <= Unrevealed(m0)
    ensures NoQuestionMarks(m0) ==> NoQuestionMarks(m1)
  {
  }

  /** Making one cell visible removes exactly that cell from the unrevealed ones. */
  lemma ShowOne(m: map<Coord, Grid>, p: Coord)
    requires p in m
    ensures RevealsOnly(m, m[p := m[p].(fieldState := VISIBLE)])
    ensures Unrevealed(m[p := m[p].(fieldState := VISIBLE)]) == Unrevealed(m) - {p}
  {
  }

  /** Putting a bomb on one cell adds exactly that cell to the bombs. */
  lemma PlaceOne(m: map<Coord, Grid>, p: Coord)
    requires p in m
    ensures BombsPlaced(m, m[p := m[p].(bomb := true)])
    ensures Bombs(m[p := m[p].(bomb := true)]) == Bombs(m) + {p}
    ensures Unrevealed(m[p := m[p].(bomb := true)]) == Unrevealed(m)
  {
  }

  /** Placing bombs only adds bombs and reveals nothing. */
  lemma PlacedViews(m0: map<Coord, Grid>, m1: map<Coord, Grid>)
    requires BombsPlaced(m0, m1)
    ensures Bombs(m0) <= Bombs(m1)
    ensures Unrevealed(m1) == Unrevealed(m0)
  {
  }

  lemma BombsPlacedTransitive(m0: map<Coord, Grid>, m1: map<Coord, Grid>, m2: map<Coord, Grid>)
    requires BombsPlaced(m0, m1) && BombsPlaced(m1, m2)
    ensures BombsPlaced(m0, m2)
  {
  }

  // ---------------------------------------------------------------------
  // Cardinality facts used by the counter accounting

  lemma RemoveMember<T>(s: set<T>, e: T)
    requires e in s
    ensures |s - {e}| == |s| - 1
  {
    assert s == (s - {e}) + {e};
  }

  lemma SubsetCard<T>(a: set<T>, b: set<T>)
    requires a <= b
    ensures |a| <= |b|
  {
    assert b == a + (b - a);
  }

  /** Removing a chain of nested sets: what leaves `a` on the way to `c`
      leaves it either on the way to `b` or on the way from `b` to `c`. */
  lemma DiffChain<T>(a: set<T>, b: set<T>, c: set<T>)
    requires c <= b <= a
    ensures |a - c| == |a - b| + |b - c|
  {
    assert a - c == (a - b) + (b - c);
    assert (a - b) !! (b - c);
  }

  /** When the cells that became visible hold no bomb, the number of
      unrevealed safe cells drops by exactly the number of cells revealed. */
  lemma SafeRevealCount(u0: set<Coord>, u1: set<Coord>, bombs: set<Coord>)
    requires u1 <= u0 && (u0 - u1) !! bombs
    ensures |u1 - bombs| == |u0 - bombs| - |u0 - u1|
  {
    assert u0 - bombs == (u1 - bombs) + (u0 - u1);
    assert (u1 - bombs) !! (u0 - u1);
  }

  /** Toggling makes a cell unrevealed exactly when it was visible; the number of
      unrevealed safe cells then grows by one if that cell is safe. */
  lemma ToggleCount(m: map<Coord, Grid>, p: Coord)
    requires p in m
    ensures var m' := m[p := m[p].(fieldState := ToggledState(m[p].fieldState))];
      Bombs(m') == Bombs(m) &&
      Unrevealed(m') == Unrevealed(m) + {p} &&
      SafeUnrevealed(m') == SafeUnrevealed(m) + (if m[p].fieldState == VISIBLE && !m[p].bomb then 1 else 0)
  {
    var m' := m[p := m[p].(fieldState := ToggledState(m[p].fieldState))];
    assert Bombs(m') == Bombs(m);
    assert Unrevealed(m') == Unrevealed(m) + {p};
    if m[p].fieldState == VISIBLE && !m[p].bomb {
      assert Unrevealed(m') - Bombs(m') == (Unrevealed(m) - Bombs(m)) + {p};
    } else {
      assert Unrevealed(m') - Bombs(m') == Unrevealed(m) - Bombs(m);
    }
  }
}
