/** The engine's neighbour rule. A cell's eight neighbours are admitted
    through four corner flags computed from whether the cell lies on the first
    or last column or row; an edge neighbour is admitted when either adjacent
    corner flag is set. This module states that rule, the bomb count it
    induces, and how it compares with the plain "neighbour lies on the board"
    test. */
module Neighbours {
  import opened Field

  datatype Direction = TopLeft | TopRight | BotRight | BotLeft | Top | Bot | Left | Right

  /** The eight directions in the order the engine tests them. */
  const SourceOrder: seq<Direction> := [TopLeft, TopRight, BotRight, BotLeft, Top, Bot, Left, Right]

  function Neighbour(x: int, y: int, d: Direction): Coord {
    match d
    case TopLeft => (x - 1, y - 1)
    case TopRight => (x + 1, y - 1)
    case BotRight => (x + 1, y + 1)
    case BotLeft => (x - 1, y + 1)
    case Top => (x, y - 1)
    case Bot => (x, y + 1)
    case Left => (x - 1, y)
    case Right => (x + 1, y)
  }

  /** Whether the corner flags of (x, y) admit the neighbour in direction `d`. */
  predicate Admits(cols: int, rows: int, x: int, y: int, d: Direction) {
    var topleft := x != 0 && y != 0;
    var topright := x != cols - 1 && y != 0;
    var botleft := x != 0 && y != rows - 1;
    var botright := x != cols - 1 && y != rows - 1;
    match d
    case TopLeft => topleft
    case TopRight => topright
    case BotRight => botright
    case BotLeft => botleft
    case Top => topleft || topright
    case Bot => botright || botleft
    case Left => botleft || topleft
    case Right => topright || botright
  }

  /** The neighbours admitted along the directions `ds`. */
  function AdmittedAlong(cols: int, rows: int, x: int, y: int, ds: seq<Direction>): set<Coord> {
    if ds == [] then {}
    else (if Admits(cols, rows, x, y, ds[0]) then {Neighbour(x, y, ds[0])} else {})
         + AdmittedAlong(cols, rows, x, y, ds[1..])
  }

  /** The neighbours of (x, y) the engine looks at. */
  function AdmittedNeighbours(cols: int, rows: int, x: int, y: int): set<Coord> {
    AdmittedAlong(cols, rows, x, y, SourceOrder)
  }

  /** The number of bombs among the admitted neighbours of (x, y). */
  function AdjacentBombs(cols: int, rows: int, bombs: set<Coord>, x: int, y: int): nat {
    |AdmittedNeighbours(cols, rows, x, y) * bombs|
  }

  /** One guarded increment of the engine's count: 1 when the neighbour in
      direction `d` is admitted and holds a bomb. */
  function BombTerm(cols: int, rows: int, bombs: set<Coord>, x: int, y: int, d: Direction): nat {
    if Admits(cols, rows, x, y, d) && Neighbour(x, y, d) in bombs then 1 else 0
  }

  /** The guarded increments along the directions `ds`, added up. */
  function CountAlong(cols: int, rows: int, bombs: set<Coord>, x: int, y: int, ds: seq<Direction>): nat {
    if ds == [] then 0
    else BombTerm(cols, rows, bombs, x, y, ds[0]) + CountAlong(cols, rows, bombs, x, y, ds[1..])
  }

  /** A zero cell is closed when every admitted neighbour without a bomb is
      no longer unrevealed: the cascade has gone through it. */
  ghost predicate Closed(cols: int, rows: int, bombs: set<Coord>, unrevealed: set<Coord>, c: Coord) {
    AdjacentBombs(cols, rows, bombs, c.0, c.1) == 0 ==>
      forall n :: n in AdmittedNeighbours(cols, rows, c.0, c.1) && n !in bombs ==> n !in unrevealed
  }

  /** One step of a cascade: from a zero cell `q` to an admitted neighbour
      `c` that holds no bomb and was unrevealed (in `u`) when the reveal
      began. */
  predicate Step(cols: int, rows: int, bombs: set<Coord>, u: set<Coord>, q: Coord, c: Coord) {
    AdjacentBombs(cols, rows, bombs, q.0, q.1) == 0 &&
    c in AdmittedNeighbours(cols, rows, q.0, q.1) && c !in bombs && c in u
  }

  /** `c` is `p` or is reached from `p` by cascade steps. */
  least predicate Reaches(cols: int, rows: int, bombs: set<Coord>, u: set<Coord>, p: Coord, c: Coord) {
    c == p || exists q :: Reaches(cols, rows, bombs, u, p, q) && Step(cols, rows, bombs, u, q, c)
  }

  /** Every cell of `r` is reached from `p`. */
  ghost predicate Reached(cols: int, rows: int, bombs: set<Coord>, u: set<Coord>, p: Coord, r: set<Coord>) {
    forall c :: c in r ==> Reaches(cols, rows, bombs, u, p, c)
  }

  /** The cells within one step of (x, y) in each axis, other than (x, y),
      that lie on the board. */
  function Ring(cols: int, rows: int, x: int, y: int): set<Coord> {
    set a, b | x - 1 <= a <= x + 1 && y - 1 <= b <= y + 1 && (a, b) != (x, y)
               && 0 <= a < cols && 0 <= b < rows :: (a, b)
  }

  // ---------------------------------------------------------------------
  // Lemmas

  /** The corner flags never admit a neighbour off the board, so the engine
      never indexes outside its grid from an on-board cell. */
  lemma AdmitsInBounds(cols: int, rows: int, x: int, y: int, d: Direction)
    requires InBounds(cols, rows, (x, y)) && Admits(cols, rows, x, y, d)
    ensures InBounds(cols, rows, Neighbour(x, y, d))
  {
  }

  function DirectionOf(dx: int, dy: int): (d: Direction)
    requires -1 <= dx <= 1 && -1 <= dy <= 1 && (dx, dy) != (0, 0)
    ensures Neighbour(0, 0, d) == (dx, dy)
  {
    if dy == -1 then (if dx == -1 then TopLeft else if dx == 0 then Top else TopRight)
    else if dy == 1 then (if dx == -1 then BotLeft else if dx == 0 then Bot else BotRight)
    else if dx == -1 then Left else Right
  }

  lemma {:induction false} AlongContains(cols: int, rows: int, x: int, y: int, ds: seq<Direction>, d: Direction)
    requires d in ds && Admits(cols, rows, x, y, d)
    ensures Neighbour(x, y, d) in AdmittedAlong(cols, rows, x, y, ds)
  {
    if ds[0] != d {
      AlongContains(cols, rows, x, y, ds[1..], d);
    }
  }

  /** Whatever holds of every admitted neighbour along `ds` holds of every
      member of `AdmittedAlong(ds)`: here, lying in the set `s`. */
  lemma {:induction false} AlongWithin(cols: int, rows: int, x: int, y: int, ds: seq<Direction>, s: set<Coord>)
    requires forall d :: d in ds && Admits(cols, rows, x, y, d) ==> Neighbour(x, y, d) in s
    ensures AdmittedAlong(cols, rows, x, y, ds) <= s
  {
    if ds != [] {
      AlongWithin(cols, rows, x, y, ds[1..], s);
    }
  }

  /** If every admitted safe neighbour along `ds` is revealed, every member
      of `AdmittedAlong(ds)` outside `bombs` is outside `unrevealed`. */
  lemma {:induction false} AlongRevealed(cols: int, rows: int, x: int, y: int, ds: seq<Direction>,
                                         bombs: set<Coord>, unrevealed: set<Coord>)
    requires forall j :: 0 <= j < |ds| && Admits(cols, rows, x, y, ds[j]) && Neighbour(x, y, ds[j]) !in bombs ==>
                           Neighbour(x, y, ds[j]) !in unrevealed
    ensures forall n :: n in AdmittedAlong(cols, rows, x, y, ds) && n !in bombs ==> n !in unrevealed
  {
    if ds != [] {
      var rest := ds[1..];
      assert forall j :: 0 <= j < |rest| ==> rest[j] == ds[j + 1];
      AlongRevealed(cols, rows, x, y, rest, bombs, unrevealed);
    }
  }

  /** Handling one more direction of `ds` while the unrevealed cells only
      shrink keeps every direction handled so far handled. */
  lemma HandledPrefix(cols: int, rows: int, x: int, y: int, ds: seq<Direction>, k: int,
                      bombs: set<Coord>, u1: set<Coord>, u2: set<Coord>)
    requires 0 <= k < |ds| && u2 <= u1
    requires forall j :: 0 <= j < k && Admits(cols, rows, x, y, ds[j]) && Neighbour(x, y, ds[j]) !in bombs ==>
                           Neighbour(x, y, ds[j]) !in u1
    requires Admits(cols, rows, x, y, ds[k]) && Neighbour(x, y, ds[k]) !in bombs ==> Neighbour(x, y, ds[k]) !in u2
    ensures forall j :: 0 <= j < k + 1 && Admits(cols, rows, x, y, ds[j]) && Neighbour(x, y, ds[j]) !in bombs ==>
                          Neighbour(x, y, ds[j]) !in u2
  {
  }

  lemma NeighbourInjective(x: int, y: int, d: Direction, e: Direction)
    requires Neighbour(x, y, d) == Neighbour(x, y, e)
    ensures d == e
  {
  }

  /** A direction not among `ds` contributes no neighbour to `AdmittedAlong(ds)`. */
  lemma {:induction false} AlongAvoids(cols: int, rows: int, x: int, y: int, ds: seq<Direction>, d: Direction)
    requires d !in ds
    ensures Neighbour(x, y, d) !in AdmittedAlong(cols, rows, x, y, ds)
  {
    if ds != [] {
      assert d != ds[0];
      if Neighbour(x, y, d) == Neighbour(x, y, ds[0]) {
        NeighbourInjective(x, y, d, ds[0]);
      }
      assert d !in ds[1..];
      AlongAvoids(cols, rows, x, y, ds[1..], d);
    }
  }

  /** The tail of a list of distinct directions is distinct and lacks the head. */
  lemma DistinctTail(ds: seq<Direction>)
    requires ds != [] && forall i, j :: 0 <= i < j < |ds| ==> ds[i] != ds[j]
    ensures forall i, j :: 0 <= i < j < |ds[1..]| ==> ds[1..][i] != ds[1..][j]
    ensures ds[0] !in ds[1..]
  {
    var rest := ds[1..];
    forall i, j | 0 <= i < j < |rest| ensures rest[i] != rest[j] {
      assert rest[i] == ds[i + 1] && rest[j] == ds[j + 1];
    }
    forall j | 0 <= j < |rest| ensures rest[j] != ds[0] {
      assert rest[j] == ds[j + 1];
    }
  }

  /** Adding a new cell `n` to a set adds one bomb to it exactly when `n` is a bomb. */
  lemma HeadCount(tail: set<Coord>, bombs: set<Coord>, n: Coord)
    requires n !in tail
    ensures |({n} + tail) * bombs| == |tail * bombs| + (if n in bombs then 1 else 0)
  {
    if n in bombs {
      assert ({n} + tail) * bombs == (tail * bombs) + {n};
    } else {
      assert ({n} + tail) * bombs == tail * bombs;
    }
  }

  /** The added-up guarded increments along distinct directions are exactly
      the number of bombs among the neighbours admitted along them. */
  lemma {:induction false} CountAlongIsCardinality(cols: int, rows: int, bombs: set<Coord>, x: int, y: int,
                                                   ds: seq<Direction>)
    requires forall i, j :: 0 <= i < j < |ds| ==> ds[i] != ds[j]
    ensures CountAlong(cols, rows, bombs, x, y, ds) == |AdmittedAlong(cols, rows, x, y, ds) * bombs|
  {
    if ds != [] {
      var rest := ds[1..];
      DistinctTail(ds);
      CountAlongIsCardinality(cols, rows, bombs, x, y, rest);
      AlongAvoids(cols, rows, x, y, rest, ds[0]);
      var n := Neighbour(x, y, ds[0]);
      var tail := AdmittedAlong(cols, rows, x, y, rest);
      if Admits(cols, rows, x, y, ds[0]) {
        assert AdmittedAlong(cols, rows, x, y, ds) == {n} + tail;
        HeadCount(tail, bombs, n);
      } else {
        assert AdmittedAlong(cols, rows, x, y, ds) == tail;
      }
    }
  }

  /** The engine's eight guarded increments, in its order, count exactly the
      bombs among the admitted neighbours; hence the count is at most 8. */
  lemma EightTerms(cols: int, rows: int, bombs: set<Coord>, x: int, y: int)
    ensures BombTerm(cols, rows, bombs, x, y, TopLeft) + BombTerm(cols, rows, bombs, x, y, TopRight)
          + BombTerm(cols, rows, bombs, x, y, BotRight) + BombTerm(cols, rows, bombs, x, y, BotLeft)
          + BombTerm(cols, rows, bombs, x, y, Top) + BombTerm(cols, rows, bombs, x, y, Bot)
          + BombTerm(cols, rows, bombs, x, y, Left) + BombTerm(cols, rows, bombs, x, y, Right)
          == AdjacentBombs(cols, rows, bombs, x, y)
    ensures AdjacentBombs(cols, rows, bombs, x, y) <= 8
  {
    CountAlongIsCardinality(cols, rows, bombs, x, y, SourceOrder);
    AllTerms(cols, rows, bombs, x, y);
  }

  /** The count along the source order, unfolded into its eight terms. */
  lemma AllTerms(cols: int, rows: int, bombs: set<Coord>, x: int, y: int)
    ensures CountAlong(cols, rows, bombs, x, y, SourceOrder)
         == BombTerm(cols, rows, bombs, x, y, TopLeft) + BombTerm(cols, rows, bombs, x, y, TopRight)
          + BombTerm(cols, rows, bombs, x, y, BotRight) + BombTerm(cols, rows, bombs, x, y, BotLeft)
          + BombTerm(cols, rows, bombs, x, y, Top) + BombTerm(cols, rows, bombs, x, y, Bot)
          + BombTerm(cols, rows, bombs, x, y, Left) + BombTerm(cols, rows, bombs, x, y, Right)
  {
    EdgeTerms(cols, rows, bombs, x, y);
    var t := BombTerm(cols, rows, bombs, x, y, Top) + BombTerm(cols, rows, bombs, x, y, Bot)
           + BombTerm(cols, rows, bombs, x, y, Left) + BombTerm(cols, rows, bombs, x, y, Right);
    t := BombTerm(cols, rows, bombs, x, y, BotLeft) + t;
    assert CountAlong(cols, rows, bombs, x, y, [BotLeft, Top, Bot, Left, Right]) == t;
    t := BombTerm(cols, rows, bombs, x, y, BotRight) + t;
    assert CountAlong(cols, rows, bombs, x, y, [BotRight, BotLeft, Top, Bot, Left, Right]) == t;
    t := BombTerm(cols, rows, bombs, x, y, TopRight) + t;
    assert CountAlong(cols, rows, bombs, x, y, [TopRight, BotRight, BotLeft, Top, Bot, Left, Right]) == t;
    t := BombTerm(cols, rows, bombs, x, y, TopLeft) + t;
    assert CountAlong(cols, rows, bombs, x, y, SourceOrder) == t;
  }

  /** The last four terms of the count, those of the edge neighbours. */
  lemma EdgeTerms(cols: int, rows: int, bombs: set<Coord>, x: int, y: int)
    ensures CountAlong(cols, rows, bombs, x, y, [Top, Bot, Left, Right])
         == BombTerm(cols, rows, bombs, x, y, Top) + BombTerm(cols, rows, bombs, x, y, Bot)
          + BombTerm(cols, rows, bombs, x, y, Left) + BombTerm(cols, rows, bombs, x, y, Right)
  {
    var t := BombTerm(cols, rows, bombs, x, y, Right);
    assert CountAlong(cols, rows, bombs, x, y, [Right]) == t;
    t := BombTerm(cols, rows, bombs, x, y, Left) + t;
    assert CountAlong(cols, rows, bombs, x, y, [Left, Right]) == t;
    t := BombTerm(cols, rows, bombs, x, y, Bot) + t;
    assert CountAlong(cols, rows, bombs, x, y, [Bot, Left, Right]) == t;
    t := BombTerm(cols, rows, bombs, x, y, Top) + t;
    assert CountAlong(cols, rows, bombs, x, y, [Top, Bot, Left, Right]) == t;
  }

  /** The same count with the corner flags written out as the engine computes them.
      This lemma only bridges the engine's literal expression in
      `Logic.Minesweeper.GetAdjacentBombCount` to `AdjacentBombs`; the rule
      itself is defined once, by `Admits` and `BombTerm`. */
  lemma FlagTerms(cols: int, rows: int, bombs: set<Coord>, x: int, y: int)
    ensures var topleft := x != 0 && y != 0;
            var topright := x != cols - 1 && y != 0;
            var botleft := x != 0 && y != rows - 1;
            var botright := x != cols - 1 && y != rows - 1;
            (if topleft && (x - 1, y - 1) in bombs then 1 else 0)
            + (if topright && (x + 1, y - 1) in bombs then 1 else 0)
            + (if botright && (x + 1, y + 1) in bombs then 1 else 0)
            + (if botleft && (x - 1, y + 1) in bombs then 1 else 0)
            + (if (topleft || topright) && (x, y - 1) in bombs then 1 else 0)
            + (if (botright || botleft) && (x, y + 1) in bombs then 1 else 0)
            + (if (botleft || topleft) && (x - 1, y) in bombs then 1 else 0)
            + (if (topright || botright) && (x + 1, y) in bombs then 1 else 0)
            == AdjacentBombs(cols, rows, bombs, x, y)
    ensures AdjacentBombs(cols, rows, bombs, x, y) <= 8
  {
    EightTerms(cols, rows, bombs, x, y);
  }

  /** On a board at least two cells wide and two cells high the corner flags
      admit exactly the on-board cells around (x, y): the engine's rule then
      agrees with the plain bounds test. */
  lemma AdmittedIsRing(cols: int, rows: int, x: int, y: int)
    requires cols >= 2 && rows >= 2 && InBounds(cols, rows, (x, y))
    ensures AdmittedNeighbours(cols, rows, x, y) == Ring(cols, rows, x, y)
  {
    forall d | d in SourceOrder && Admits(cols, rows, x, y, d)
      ensures Neighbour(x, y, d) in Ring(cols, rows, x, y)
    {
      AdmitsInBounds(cols, rows, x, y, d);
      var (a, b) := Neighbour(x, y, d);
      assert (a, b) in Ring(cols, rows, x, y);
    }
    AlongWithin(cols, rows, x, y, SourceOrder, Ring(cols, rows, x, y));
    forall p | p in Ring(cols, rows, x, y) ensures p in AdmittedNeighbours(cols, rows, x, y) {
      var d := DirectionOf(p.0 - x, p.1 - y);
      assert Neighbour(x, y, d) == p;
      assert d in SourceOrder;
      AlongContains(cols, rows, x, y, SourceOrder, d);
    }
  }

  /** With a single column or a single row every corner flag is false, so no
      neighbour at all is admitted and every cell counts zero adjacent bombs. */
  lemma NarrowBoardAdmitsNothing(cols: int, rows: int, x: int, y: int, bombs: set<Coord>)
    requires InBounds(cols, rows, (x, y)) && (cols == 1 || rows == 1)
    ensures AdmittedNeighbours(cols, rows, x, y) == {}
    ensures AdjacentBombs(cols, rows, bombs, x, y) == 0
  {
    AlongWithin(cols, rows, x, y, SourceOrder, {});
  }

  /** Hence on a single-column board with at least two rows the engine's rule
      drops neighbours that the plain bounds test keeps. */
  lemma SingleColumnDropsNeighbours(rows: int, y: int)
    requires rows >= 2 && 0 <= y < rows
    ensures AdmittedNeighbours(1, rows, 0, y) != Ring(1, rows, 0, y)
  {
    NarrowBoardAdmitsNothing(1, rows, 0, y, {});
    var b := if y == 0 then 1 else y - 1;
    assert (0, b) in Ring(1, rows, 0, y);
  }

  /** Closedness survives further reveals. */
  lemma ClosedMonotone(cols: int, rows: int, bombs: set<Coord>, u0: set<Coord>, u1: set<Coord>, c: Coord)
    requires u1 <= u0 && Closed(cols, rows, bombs, u0, c)
    ensures Closed(cols, rows, bombs, u1, c)
  {
  }

  /** What a cascade started at `n` reaches within the cells `u1`, a cascade
      reaching `n` within the larger `u0` reaches too. */
  least lemma ReachTrans(cols: int, rows: int, bombs: set<Coord>, u0: set<Coord>, u1: set<Coord>,
                         p: Coord, n: Coord, c: Coord)
    requires u1 <= u0 && Reaches(cols, rows, bombs, u1, n, c)
    ensures Reaches(cols, rows, bombs, u0, p, n) ==> Reaches(cols, rows, bombs, u0, p, c)
  {
    if c != n {
      var q :| Reaches(cols, rows, bombs, u1, n, q) && Step(cols, rows, bombs, u1, q, c);
      ReachTrans(cols, rows, bombs, u0, u1, p, n, q);
      assert Step(cols, rows, bombs, u0, q, c);
    }
  }

  /** A nested cascade from a neighbour `n` one step from `p` reveals only
      cells reached from `p`. */
  lemma ReachExtend(cols: int, rows: int, bombs: set<Coord>, u0: set<Coord>, u1: set<Coord>,
                    p: Coord, n: Coord, r: set<Coord>)
    requires u1 <= u0 && Step(cols, rows, bombs, u0, p, n)
    requires Reached(cols, rows, bombs, u1, n, r)
    ensures Reached(cols, rows, bombs, u0, p, r)
  {
    assert Reaches(cols, rows, bombs, u0, p, p);
    assert Reaches(cols, rows, bombs, u0, p, n);
    forall c | c in r
      ensures Reaches(cols, rows, bombs, u0, p, c)
    {
      ReachTrans(cols, rows, bombs, u0, u1, p, n, c);
    }
  }

  /** When `p` and every cell revealed since `u0` are closed, every cell
      reached from `p` is revealed (and lies in `u0` unless it is `p`). */
  least lemma ClosureContainsReach(cols: int, rows: int, bombs: set<Coord>, u0: set<Coord>, u1: set<Coord>,
                                   p: Coord, c: Coord)
    requires u1 <= u0 && p !in u1
    requires forall q :: q in u0 - u1 + {p} ==> Closed(cols, rows, bombs, u1, q)
    requires Reaches(cols, rows, bombs, u0, p, c)
    ensures c !in u1 && (c == p || c in u0)
  {
    if c != p {
      var q :| Reaches(cols, rows, bombs, u0, p, q) && Step(cols, rows, bombs, u0, q, c);
      ClosureContainsReach(cols, rows, bombs, u0, u1, p, q);
      assert Closed(cols, rows, bombs, u1, q);
    }
  }

  /** A reveal from `p` that leaves `p` and every revealed cell closed and
      reveals only cells reached from `p` reveals exactly the unrevealed
      cells reached from `p`. */
  lemma RevealedIsReach(cols: int, rows: int, bombs: set<Coord>, u0: set<Coord>, u1: set<Coord>, p: Coord)
    requires u1 <= u0 && p !in u1
    requires forall c :: c in u0 - u1 + {p} ==> Closed(cols, rows, bombs, u1, c)
    requires Reached(cols, rows, bombs, u0, p, u0 - u1)
    ensures forall c :: c in u0 ==> (c !in u1 <==> Reaches(cols, rows, bombs, u0, p, c))
  {
    forall c | c in u0 && Reaches(cols, rows, bombs, u0, p, c)
      ensures c !in u1
    {
      ClosureContainsReach(cols, rows, bombs, u0, u1, p, c);
    }
  }
}
