/**
 * The Wireworld cellular automaton as pure functions: the four cell states,
 * rectangular grids of them, the Moore-neighbourhood sample that the engine
 * takes around a cell, the per-cell transition rule and one synchronous step
 * of the whole grid. The engine class in module Engine is proved against
 * these definitions.
 */
module Wireworld {

  /** The four states a cell can hold. */
  datatype Cell = Empty | ElectronHead | ElectronTail | Conductor

  /** A grid is a sequence of rows; row i, column k is g[i][k]. */
  type Grid = seq<seq<Cell>>

  /** g has exactly `rows` rows, each of exactly `cols` cells. */
  ghost predicate IsGrid(g: Grid, rows: nat, cols: nat) {
    |g| == rows && forall i :: 0 <= i < |g| ==> |g[i]| == cols
  }

  /** All rows of g have the length of the first one. */
  ghost predicate Rectangular(g: Grid) {
    forall i :: 0 <= i < |g| ==> |g[i]| == |g[0]|
  }

  /** (r, c) names a cell of g. Coordinates are unbounded integers, so an
      offset that leaves the grid is simply out of bounds: there is no
      wraparound. */
  predicate InBounds(g: Grid, r: int, c: int) {
    0 <= r < |g| && 0 <= c < |g[r]|
  }

  /** No cell of g carries a signal. */
  ghost predicate Quiet(g: Grid) {
    forall r, c :: InBounds(g, r, c) ==> g[r][c] != ElectronHead && g[r][c] != ElectronTail
  }

  /** The all-Empty grid of the given shape. */
  function EmptyGrid(rows: nat, cols: nat): (g: Grid)
    ensures IsGrid(g, rows, cols)
    ensures forall i, k :: 0 <= i < rows && 0 <= k < cols ==> g[i][k] == Empty
  {
    seq(rows, _ => seq(cols, _ => Empty))
  }

  /** How many elements of s are equal to c. */
  function Count(s: seq<Cell>, c: Cell): nat
  {
    if s == [] then 0 else (if s[0] == c then 1 else 0) + Count(s[1..], c)
  }

  lemma {:induction false} CountAppend(s: seq<Cell>, t: seq<Cell>, c: Cell)
    ensures Count(s + t, c) == Count(s, c) + Count(t, c)
  {
    if s == [] {
      assert s + t == t;
    } else {
      assert (s + t)[1..] == s[1..] + t;
      CountAppend(s[1..], t, c);
    }
  }

  // ---------------------------------------------------------------------
  // The Moore neighbourhood
  // ---------------------------------------------------------------------

  /** The number of Moore neighbours of a cell away from the border. */
  const MooreSize := 8

  /** The j-th Moore offset (row, column), in the order the engine samples
      them: left, right, top, bottom, top-left, top-right, bottom-left,
      bottom-right. */
  function MooreOffset(j: nat): (int, int)
    requires j < MooreSize
  {
    match j
    case 0 => (0, -1)
    case 1 => (0, 1)
    case 2 => (-1, 0)
    case 3 => (1, 0)
    case 4 => (-1, -1)
    case 5 => (-1, 1)
    case 6 => (1, -1)
    case _ => (1, 1)
  }

  /** The cell at (r, c) as a one-element sequence, or nothing when (r, c)
      is outside the grid. */
  function At(g: Grid, r: int, c: int): seq<Cell>
  {
    if InBounds(g, r, c) then [g[r][c]] else []
  }

  /** The in-bounds cells at the first n Moore offsets from (i, k), in
      offset order: each offset appends its cell when that cell exists. */
  function Sample(g: Grid, i: int, k: int, n: nat): seq<Cell>
    requires n <= MooreSize
  {
    if n == 0 then []
    else Sample(g, i, k, n - 1) + At(g, i + MooreOffset(n - 1).0, k + MooreOffset(n - 1).1)
  }

  /** The Moore-neighbourhood sample of cell (i, k). */
  function Neighbors(g: Grid, i: int, k: int): seq<Cell>
    requires Rectangular(g) && InBounds(g, i, k)
  {
    Sample(g, i, k, MooreSize)
  }

  /** The sample written out offset by offset. */
  lemma NeighborsUnfold(g: Grid, i: int, k: int)
    requires Rectangular(g) && InBounds(g, i, k)
    ensures Neighbors(g, i, k) ==
      At(g, i, k - 1) + At(g, i, k + 1) + At(g, i - 1, k) + At(g, i + 1, k) +
      At(g, i - 1, k - 1) + At(g, i - 1, k + 1) + At(g, i + 1, k - 1) + At(g, i + 1, k + 1)
  {
    assert Sample(g, i, k, 1) == At(g, i, k - 1);
    assert Sample(g, i, k, 2) == Sample(g, i, k, 1) + At(g, i, k + 1);
    assert Sample(g, i, k, 3) == Sample(g, i, k, 2) + At(g, i - 1, k);
    assert Sample(g, i, k, 4) == Sample(g, i, k, 3) + At(g, i + 1, k);
    assert Sample(g, i, k, 5) == Sample(g, i, k, 4) + At(g, i - 1, k - 1);
    assert Sample(g, i, k, 6) == Sample(g, i, k, 5) + At(g, i - 1, k + 1);
    assert Sample(g, i, k, 7) == Sample(g, i, k, 6) + At(g, i + 1, k - 1);
    assert Sample(g, i, k, 8) == Sample(g, i, k, 7) + At(g, i + 1, k + 1);
  }

  /** How many of the positions r - 1, r, r + 1 lie in 0 .. n - 1. */
  function Span(r: int, n: int): nat
  {
    (if r > 0 then 1 else 0) + 1 + (if r + 1 < n then 1 else 0)
  }

  /** The sample holds one cell for each in-bounds position of the 3 x 3
      block around (i, k), the centre excluded. */
  lemma NeighborCount(g: Grid, i: int, k: int)
    requires Rectangular(g) && InBounds(g, i, k)
    ensures |Neighbors(g, i, k)| == Span(i, |g|) * Span(k, |g[i]|) - 1
  {
    NeighborsUnfold(g, i, k);
    var a, b := Span(i, |g|), Span(k, |g[i]|);
    if i > 0 && i + 1 < |g| {
      assert a == 3;
    } else if i > 0 || i + 1 < |g| {
      assert a == 2;
    } else {
      assert a == 1;
    }
  }

  /** A corner of a grid of at least 2 x 2 has three neighbours. */
  lemma CornerHasThree(g: Grid, i: int, k: int)
    requires Rectangular(g) && InBounds(g, i, k)
    requires |g| >= 2 && |g[0]| >= 2
    requires (i == 0 || i == |g| - 1) && (k == 0 || k == |g[0]| - 1)
    ensures |Neighbors(g, i, k)| == 3
  {
    NeighborCount(g, i, k);
  }

  /** A cell on the border that is not a corner has five neighbours. */
  lemma EdgeHasFive(g: Grid, i: int, k: int)
    requires Rectangular(g) && InBounds(g, i, k)
    requires |g| >= 2 && |g[0]| >= 2
    requires ((i == 0 || i == |g| - 1) && 0 < k < |g[0]| - 1)
          || ((k == 0 || k == |g[0]| - 1) && 0 < i < |g| - 1)
    ensures |Neighbors(g, i, k)| == 5
  {
    NeighborCount(g, i, k);
  }

  /** A cell off the border has all eight neighbours. */
  lemma InteriorHasEight(g: Grid, i: int, k: int)
    requires Rectangular(g) && InBounds(g, i, k)
    requires 0 < i < |g| - 1 && 0 < k < |g[0]| - 1
    ensures |Neighbors(g, i, k)| == 8
  {
    NeighborCount(g, i, k);
  }

  /** 1 when (r, c) is a cell of g holding x, else 0. */
  function Hit(g: Grid, r: int, c: int, x: Cell): nat
  {
    if InBounds(g, r, c) && g[r][c] == x then 1 else 0
  }

  /** The number of cells holding x among the in-bounds cells of the 3 x 3
      block around (i, k), the centre excluded, counted row by row. This is
      the Moore neighbourhood as the automaton defines it, independent of
      the order in which the engine samples it. */
  function WindowCount(g: Grid, i: int, k: int, x: Cell): nat
  {
    Hit(g, i - 1, k - 1, x) + Hit(g, i - 1, k, x) + Hit(g, i - 1, k + 1, x) +
    Hit(g, i, k - 1, x) + Hit(g, i, k + 1, x) +
    Hit(g, i + 1, k - 1, x) + Hit(g, i + 1, k, x) + Hit(g, i + 1, k + 1, x)
  }

  /** The sample holds exactly the cells of the Moore neighbourhood: for every
      state, it holds as many cells of that state as the neighbourhood does. */
  lemma NeighborsCount(g: Grid, i: int, k: int, x: Cell)
    requires Rectangular(g) && InBounds(g, i, k)
    ensures Count(Neighbors(g, i, k), x) == WindowCount(g, i, k, x)
  {
    NeighborsUnfold(g, i, k);
    var orthogonal := At(g, i, k - 1) + At(g, i, k + 1) + At(g, i - 1, k) + At(g, i + 1, k);
    CountFour([], g, i, k - 1, i, k + 1, i - 1, k, i + 1, k, x);
    assert [] + At(g, i, k - 1) == At(g, i, k - 1);
    CountFour(orthogonal, g, i - 1, k - 1, i - 1, k + 1, i + 1, k - 1, i + 1, k + 1, x);
  }

  /** Appending the cells at four positions adds their hits to the count. */
  lemma CountFour(s: seq<Cell>, g: Grid, r1: int, c1: int, r2: int, c2: int,
                  r3: int, c3: int, r4: int, c4: int, x: Cell)
    ensures Count(s + At(g, r1, c1) + At(g, r2, c2) + At(g, r3, c3) + At(g, r4, c4), x) ==
      Count(s, x) + Hit(g, r1, c1, x) + Hit(g, r2, c2, x) + Hit(g, r3, c3, x) + Hit(g, r4, c4, x)
  {
    CountSnoc(s, g, r1, c1, x);
    CountSnoc(s + At(g, r1, c1), g, r2, c2, x);
    CountSnoc(s + At(g, r1, c1) + At(g, r2, c2), g, r3, c3, x);
    CountSnoc(s + At(g, r1, c1) + At(g, r2, c2) + At(g, r3, c3), g, r4, c4, x);
  }

  /** Appending the cell at (r, c), if any, adds its hit to the count. */
  lemma CountSnoc(s: seq<Cell>, g: Grid, r: int, c: int, x: Cell)
    ensures Count(s + At(g, r, c), x) == Count(s, x) + Hit(g, r, c, x)
  {
    CountAppend(s, At(g, r, c), x);
    if InBounds(g, r, c) {
      assert At(g, r, c)[1..] == [];
    }
  }

  /** Two grids of the same shape that agree on the 3 x 3 block around
      (i, k) give that cell the same sample. */
  lemma NeighborsLocal(g: Grid, h: Grid, i: int, k: int)
    requires Rectangular(g) && InBounds(g, i, k)
    requires |h| == |g| && forall r :: 0 <= r < |g| ==> |h[r]| == |g[r]|
    requires forall r, c :: InBounds(g, r, c) && i - 1 <= r <= i + 1 && k - 1 <= c <= k + 1 ==> h[r][c] == g[r][c]
    ensures Rectangular(h) && InBounds(h, i, k)
    ensures Neighbors(h, i, k) == Neighbors(g, i, k)
  {
    NeighborsUnfold(g, i, k);
    NeighborsUnfold(h, i, k);
  }

  // ---------------------------------------------------------------------
  // The transition rule
  // ---------------------------------------------------------------------

  /** The next state of a cell in state c with `heads` electron heads among
      its neighbours. Each clause says which cells reach the given state. */
  function NextState(c: Cell, heads: nat): (r: Cell)
    ensures r == Empty <==> c == Empty
    ensures r == ElectronTail <==> c == ElectronHead
    ensures r == ElectronHead <==> c == Conductor && (heads == 1 || heads == 2)
    ensures r == Conductor <==> c == ElectronTail || (c == Conductor && heads != 1 && heads != 2)
  {
    match c
    case Conductor => if heads == 1 || heads == 2 then ElectronHead else Conductor
    case ElectronTail => Conductor
    case ElectronHead => ElectronTail
    case Empty => Empty
  }

  /** One synchronous generation: every cell of the result is computed from
      the cell and its neighbours in g alone. */
  function Step(g: Grid): (r: Grid)
    requires Rectangular(g)
    ensures |r| == |g| && forall i :: 0 <= i < |g| ==> |r[i]| == |g[i]|
    ensures Rectangular(r)
  {
    seq(|g|, i requires 0 <= i < |g| =>
      seq(|g[i]|, k requires 0 <= k < |g[i]| =>
        NextState(g[i][k], Count(Neighbors(g, i, k), ElectronHead))))
  }

  /** The Wireworld rule for one cell, in terms of the electron heads in
      its Moore neighbourhood. */
  lemma StepRule(g: Grid, i: int, k: int)
    requires Rectangular(g) && InBounds(g, i, k)
    ensures Step(g)[i][k] == NextState(g[i][k], WindowCount(g, i, k, ElectronHead))
    ensures g[i][k] == Empty ==> Step(g)[i][k] == Empty
    ensures g[i][k] == ElectronHead ==> Step(g)[i][k] == ElectronTail
    ensures g[i][k] == ElectronTail ==> Step(g)[i][k] == Conductor
    ensures g[i][k] == Conductor ==>
      Step(g)[i][k] == (if WindowCount(g, i, k, ElectronHead) in {1, 2} then ElectronHead else Conductor)
  {
    NeighborsCount(g, i, k, ElectronHead);
  }

  /** The new state of a cell depends on nothing outside its 3 x 3 block of
      the old grid. */
  lemma StepLocal(g: Grid, h: Grid, i: int, k: int)
    requires Rectangular(g) && InBounds(g, i, k)
    requires |h| == |g| && forall r :: 0 <= r < |g| ==> |h[r]| == |g[r]|
    requires forall r, c :: InBounds(g, r, c) && i - 1 <= r <= i + 1 && k - 1 <= c <= k + 1 ==> h[r][c] == g[r][c]
    ensures Rectangular(h)
    ensures Step(h)[i][k] == Step(g)[i][k]
  {
    NeighborsLocal(g, h, i, k);
  }

  /** A grid without electrons does not change. */
  lemma QuietIsFixedPoint(g: Grid)
    requires Rectangular(g) && Quiet(g)
    ensures Step(g) == g
  {
    forall i | 0 <= i < |g|
      ensures Step(g)[i] == g[i]
    {
      forall k | 0 <= k < |g[i]|
        ensures Step(g)[i][k] == g[i][k]
      {
        StepRule(g, i, k);
      }
    }
  }

  // ---------------------------------------------------------------------
  // Several generations
  // ---------------------------------------------------------------------

  /** The grid after n synchronous steps from g. */
  function Generation(g: Grid, n: nat): (r: Grid)
    requires Rectangular(g)
    ensures |r| == |g| && forall i :: 0 <= i < |g| ==> |r[i]| == |g[i]|
    ensures Rectangular(r)
  {
    if n == 0 then g else Step(Generation(g, n - 1))
  }

  /** A grid without electrons stays as it is forever. */
  lemma {:induction false} QuietForever(g: Grid, n: nat)
    requires Rectangular(g) && Quiet(g)
    ensures Generation(g, n) == g
  {
    if n > 0 {
      QuietForever(g, n - 1);
      QuietIsFixedPoint(g);
    }
  }

  // ---------------------------------------------------------------------
  // Two small circuits
  // ---------------------------------------------------------------------

  /** A head and a tail in a row of three: the conductor beside the tail
      sees no head, so it stays a conductor. */
  lemma RowOfThree(g: Grid)
    requires g == [[ElectronHead, ElectronTail, Conductor]]
    ensures Step(g) == [[ElectronTail, Conductor, Conductor]]
  {
    assert Step(g)[0][0] == ElectronTail by { StepRule(g, 0, 0); }
    assert Step(g)[0][1] == Conductor by { StepRule(g, 0, 1); }
    assert Step(g)[0][2] == Conductor by { StepRule(g, 0, 2); }
    assert Step(g)[0] == [ElectronTail, Conductor, Conductor];
  }

  /** A conductor whose only neighbouring head is the cell above it becomes
      a head. */
  lemma ConductorBesideHead(g: Grid)
    requires g == [[Empty, ElectronHead, Empty], [Empty, Conductor, Empty], [Empty, Empty, Empty]]
    ensures Step(g)[1][1] == ElectronHead
  {
    StepRule(g, 1, 1);
  }
}
