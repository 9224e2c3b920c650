/** The pure part of the automaton: the row-major layout of the cell buffer,
    toroidal neighbour counting as the engine performs it, the transition
    rule, and one whole generation as a function of the current buffer. */
module Grid {

  /** One cell of the buffer (a `u8`). */
  type uint8 = b: int | 0 <= b < 0x100

  /** The width and height of a universe (a `u32`). */
  type uint32 = n: int | 0 <= n < 0x1_0000_0000

  const U32_MODULUS: int := 0x1_0000_0000

  /** A buffer laid out as a `w`-by-`h` grid whose cell count fits in a `u32`,
      so that every flat index is computed without overflow. */
  predicate Shaped(cells: seq<uint8>, w: nat, h: nat) {
    w * h < U32_MODULUS && |cells| == w * h
  }

  /** Every cell is dead (0) or alive (1). */
  predicate Binary(cells: seq<uint8>) {
    forall i :: 0 <= i < |cells| ==> cells[i] == 0 || cells[i] == 1
  }

  // ---------------------------------------------------------------------
  // Flat index mapping
  // ---------------------------------------------------------------------

  lemma RowMajorBound(w: nat, h: nat, r: nat, c: nat)
    requires r < h && c < w
    ensures r * w + c < w * h
  {
    assert r * w + c < r * w + w == (r + 1) * w;
    assert (r + 1) * w <= h * w;
  }

  lemma MulAtLeast(k: int, w: nat)
    requires k >= 1
    ensures k * w >= w
  {
    assert (k - 1) * w >= 0;
  }

  /** Euclidean division has a unique quotient and remainder. */
  lemma DivModUnique(a: int, n: int, q: int, m: int)
    requires n > 0 && 0 <= m < n && a == q * n + m
    ensures a / n == q && a % n == m
  {
    var q', m' := a / n, a % n;
    assert a == q' * n + m';
    if q' < q {
      MulAtLeast(q - q', n);
      assert false;
    } else if q' > q {
      MulAtLeast(q' - q, n);
      assert false;
    }
  }

  /** The buffer position of (row `r`, column `c`), as `get_index` computes it:
      it is inside the buffer. */
  function Index(w: nat, h: nat, r: nat, c: nat): (i: nat)
    requires r < h && c < w
    ensures i < w * h
  {
    RowMajorBound(w, h, r, c);
    r * w + c
  }

  /** Row and column are read back from a position as quotient and remainder
      by the width. */
  lemma IndexInverse(w: nat, h: nat, r: nat, c: nat)
    requires r < h && c < w
    ensures Index(w, h, r, c) / w == r && Index(w, h, r, c) % w == c
  {
    DivModUnique(r * w + c, w, r, c);
  }

  /** Every buffer position is the position of exactly one cell: the mapping is onto. */
  lemma IndexOnto(w: nat, h: nat, i: nat)
    requires i < w * h
    ensures w > 0 && i / w < h
    ensures Index(w, h, i / w, i % w) == i
  {
    assert w > 0;
    var q := i / w;
    assert q * w + i % w == i;
  }

  /** `get_index` is injective on the grid. */
  lemma IndexInjective(w: nat, h: nat, r1: nat, c1: nat, r2: nat, c2: nat)
    requires r1 < h && c1 < w && r2 < h && c2 < w
    ensures Index(w, h, r1, c1) == Index(w, h, r2, c2) <==> r1 == r2 && c1 == c2
  {
    IndexInverse(w, h, r1, c1);
    IndexInverse(w, h, r2, c2);
  }

  // ---------------------------------------------------------------------
  // Neighbour counting
  // ---------------------------------------------------------------------

  /** Moving `delta` steps forward from coordinate `x` around a ring of size `n`:
      `(row + delta_row) % height` computed without fixed-width overflow. */
  function Wrap(x: nat, delta: nat, n: nat): (y: nat)
    requires x < n
    ensures y < n
  {
    (x + delta) % n
  }

  /** The engine's backward step `n - 1` is the torus predecessor: `x - 1` modulo `n`,
      so row 0's row above is row `n - 1`. */
  lemma WrapBackIsPredecessor(x: nat, n: nat)
    requires x < n
    ensures Wrap(x, n - 1, n) == (x - 1) % n
    ensures x == 0 ==> Wrap(x, n - 1, n) == n - 1
    ensures x > 0 ==> Wrap(x, n - 1, n) == x - 1
  {
    if x == 0 {
      DivModUnique(n - 1, n, 0, n - 1);
      DivModUnique(-1, n, -1, n - 1);
    } else {
      DivModUnique(x + n - 1, n, 1, x - 1);
      DivModUnique(x - 1, n, 0, x - 1);
    }
  }

  /** The offsets visited by the engine along a dimension of size `n`, in order:
      back one (as `n - 1`), none, forward one. */
  function Deltas(n: nat): (d: seq<nat>)
    requires n > 0
    ensures |d| == 3 && d[1] == 0 && d[2] == 1
    ensures d[0] == 0 <==> n == 1
  {
    [n - 1, 0, 1]
  }

  /** The contribution of the offset pair (`dr`, `dc`): a pair whose two offsets
      are both zero is skipped, any other adds the wrapped cell's value. */
  function Term(cells: seq<uint8>, w: nat, h: nat, r: nat, c: nat, dr: nat, dc: nat): (t: nat)
    requires Shaped(cells, w, h) && r < h && c < w
    ensures t <= 0xFF
    ensures dr == 0 && dc == 0 ==> t == 0
  {
    if dr == 0 && dc == 0 then 0
    else cells[Index(w, h, Wrap(r, dr, h), Wrap(c, dc, w))]
  }

  /** The contributions of the first `j` column offsets, for row offset `dr`. */
  function ColsSum(cells: seq<uint8>, w: nat, h: nat, r: nat, c: nat, dr: nat, j: nat): nat
    requires Shaped(cells, w, h) && r < h && c < w && j <= 3
  {
    if j == 0 then 0
    else ColsSum(cells, w, h, r, c, dr, j - 1) + Term(cells, w, h, r, c, dr, Deltas(w)[j - 1])
  }

  /** The contributions of the first `i` row offsets, each with all three column offsets. */
  function RowsSum(cells: seq<uint8>, w: nat, h: nat, r: nat, c: nat, i: nat): nat
    requires Shaped(cells, w, h) && r < h && c < w && i <= 3
  {
    if i == 0 then 0
    else RowsSum(cells, w, h, r, c, i - 1) + ColsSum(cells, w, h, r, c, Deltas(h)[i - 1], 3)
  }

  /** The exact sum over the nine offset pairs that the engine visits. */
  function NeighborSum(cells: seq<uint8>, w: nat, h: nat, r: nat, c: nat): nat
    requires Shaped(cells, w, h) && r < h && c < w
  {
    RowsSum(cells, w, h, r, c, 3)
  }

  /** The engine accumulates the sum in a `u8`, which wraps modulo 256. */
  function NeighborCount(cells: seq<uint8>, w: nat, h: nat, r: nat, c: nat): uint8
    requires Shaped(cells, w, h) && r < h && c < w
  {
    NeighborSum(cells, w, h, r, c) % 0x100
  }

  /** The cell at (`r` mod `h`, `c` mod `w`), for any integer coordinates. */
  function CellAt(cells: seq<uint8>, w: nat, h: nat, r: int, c: int): uint8
    requires Shaped(cells, w, h) && w > 0 && h > 0
  {
    cells[Index(w, h, r % h, c % w)]
  }

  /** Reference definition: the eight cells around (`r`, `c`) on the torus. */
  function TorusNeighbors(cells: seq<uint8>, w: nat, h: nat, r: nat, c: nat): nat
    requires Shaped(cells, w, h) && r < h && c < w
  {
    CellAt(cells, w, h, r - 1, c - 1) + CellAt(cells, w, h, r - 1, c) + CellAt(cells, w, h, r - 1, c + 1) +
    CellAt(cells, w, h, r, c - 1) + CellAt(cells, w, h, r, c + 1) +
    CellAt(cells, w, h, r + 1, c - 1) + CellAt(cells, w, h, r + 1, c) + CellAt(cells, w, h, r + 1, c + 1)
  }

  lemma ColsSumUnfold(cells: seq<uint8>, w: nat, h: nat, r: nat, c: nat, dr: nat)
    requires Shaped(cells, w, h) && r < h && c < w
    ensures ColsSum(cells, w, h, r, c, dr, 3)
         == Term(cells, w, h, r, c, dr, w - 1) + Term(cells, w, h, r, c, dr, 0) + Term(cells, w, h, r, c, dr, 1)
  {
    var d := Deltas(w);
    assert d == [w - 1, 0, 1];
    assert ColsSum(cells, w, h, r, c, dr, 1) == Term(cells, w, h, r, c, dr, d[0]);
    assert ColsSum(cells, w, h, r, c, dr, 2) == ColsSum(cells, w, h, r, c, dr, 1) + Term(cells, w, h, r, c, dr, d[1]);
    assert ColsSum(cells, w, h, r, c, dr, 3) == ColsSum(cells, w, h, r, c, dr, 2) + Term(cells, w, h, r, c, dr, d[2]);
  }

  /** The nine terms of the engine's sum, in the order it visits them. */
  lemma NeighborSumUnfold(cells: seq<uint8>, w: nat, h: nat, r: nat, c: nat)
    requires Shaped(cells, w, h) && r < h && c < w
    ensures NeighborSum(cells, w, h, r, c)
         == Term(cells, w, h, r, c, h - 1, w - 1) + Term(cells, w, h, r, c, h - 1, 0) + Term(cells, w, h, r, c, h - 1, 1)
          + Term(cells, w, h, r, c, 0, w - 1) + Term(cells, w, h, r, c, 0, 0) + Term(cells, w, h, r, c, 0, 1)
          + Term(cells, w, h, r, c, 1, w - 1) + Term(cells, w, h, r, c, 1, 0) + Term(cells, w, h, r, c, 1, 1)
  {
    assert Deltas(h) == [h - 1, 0, 1] && Deltas(w) == [w - 1, 0, 1];
    ColsSumUnfold(cells, w, h, r, c, h - 1);
    ColsSumUnfold(cells, w, h, r, c, 0);
    ColsSumUnfold(cells, w, h, r, c, 1);
    var d := Deltas(h);
    assert RowsSum(cells, w, h, r, c, 1) == ColsSum(cells, w, h, r, c, d[0], 3);
    assert RowsSum(cells, w, h, r, c, 2) == RowsSum(cells, w, h, r, c, 1) + ColsSum(cells, w, h, r, c, d[1], 3);
    assert RowsSum(cells, w, h, r, c, 3) == RowsSum(cells, w, h, r, c, 2) + ColsSum(cells, w, h, r, c, d[2], 3);
  }

  /** On a grid at least two cells wide and two cells high, the engine's count is
      the number of live cells among the eight toroidal neighbours. */
  lemma NeighborSumIsTorus(cells: seq<uint8>, w: nat, h: nat, r: nat, c: nat)
    requires Shaped(cells, w, h) && r < h && c < w
    requires w >= 2 && h >= 2
    ensures NeighborSum(cells, w, h, r, c) == TorusNeighbors(cells, w, h, r, c)
  {
    NeighborSumUnfold(cells, w, h, r, c);
    WrapBackIsPredecessor(r, h);
    WrapBackIsPredecessor(c, w);
  }

  /** On a 1-by-1 grid every visited offset lands on the cell itself, and the
      engine's value-based skip drops four of the nine pairs: the count is five
      times the cell. */
  lemma NeighborSumOneByOne(cells: seq<uint8>)
    requires Shaped(cells, 1, 1)
    ensures NeighborSum(cells, 1, 1, 0, 0) == 5 * (cells[0] as int)
  {
    NeighborSumUnfold(cells, 1, 1, 0, 0);
    DivModUnique(1, 1, 1, 0);
    assert Index(1, 1, 0, 0) == 0;
    assert Term(cells, 1, 1, 0, 0, 0, 1) == cells[0];
    assert Term(cells, 1, 1, 0, 0, 1, 0) == cells[0];
    assert Term(cells, 1, 1, 0, 0, 1, 1) == cells[0];
  }

  /** On a grid one row high and at least two wide the row offsets `h - 1`, 0
      and 1 all land on row 0, and only the first two pairs with column offset 0
      are skipped: the neighbours to the left and right are counted three times
      each and the cell itself once. */
  lemma NeighborSumOneRow(cells: seq<uint8>, w: nat, c: nat)
    requires Shaped(cells, w, 1) && w >= 2 && c < w
    ensures NeighborSum(cells, w, 1, 0, c)
         == 3 * CellAt(cells, w, 1, 0, c - 1) + cells[c] + 3 * CellAt(cells, w, 1, 0, c + 1)
  {
    NeighborSumUnfold(cells, w, 1, 0, c);
    WrapBackIsPredecessor(c, w);
    DivModUnique(1, 1, 1, 0);
    DivModUnique(c, w, 0, c);
  }

  /** The same on a grid one column wide and at least two high: the cells above
      and below are counted three times each, the cell itself once. */
  lemma NeighborSumOneColumn(cells: seq<uint8>, h: nat, r: nat)
    requires Shaped(cells, 1, h) && h >= 2 && r < h
    ensures NeighborSum(cells, 1, h, r, 0)
         == 3 * CellAt(cells, 1, h, r - 1, 0) + cells[r] + 3 * CellAt(cells, 1, h, r + 1, 0)
  {
    NeighborSumUnfold(cells, 1, h, r, 0);
    WrapBackIsPredecessor(r, h);
    DivModUnique(1, 1, 1, 0);
    DivModUnique(r, h, 0, r);
  }

  /** On a 1-by-3 grid whose cells are all alive the engine counts seven live
      neighbours where the torus has eight. */
  lemma OneByThreeAllAlive(cells: seq<uint8>, c: nat)
    requires cells == [1, 1, 1] && c < 3
    ensures Shaped(cells, 3, 1)
    ensures NeighborSum(cells, 3, 1, 0, c) == 7
    ensures TorusNeighbors(cells, 3, 1, 0, c) == 8
  {
    NeighborSumOneRow(cells, 3, c);
  }

  /** With a 0/1 buffer at most eight cells are added, so the `u8` count never wraps. */
  lemma NeighborCountBounded(cells: seq<uint8>, w: nat, h: nat, r: nat, c: nat)
    requires Shaped(cells, w, h) && r < h && c < w
    requires Binary(cells)
    ensures NeighborSum(cells, w, h, r, c) <= 8
    ensures NeighborCount(cells, w, h, r, c) == NeighborSum(cells, w, h, r, c)
  {
    NeighborSumUnfold(cells, w, h, r, c);
    forall dr: nat, dc: nat ensures Term(cells, w, h, r, c, dr, dc) <= 1 {
    }
  }

  // ---------------------------------------------------------------------
  // The transition rule and one generation
  // ---------------------------------------------------------------------

  /** The `match (cell, live_neighbors)` of `tick`. For a dead or live cell this
      is Conway's B3/S23 rule: the next state is alive exactly when there are
      three live neighbours, or two and the cell is alive. Any other byte is
      carried over unchanged. */
  function Rule(cell: uint8, n: uint8): (next: uint8)
    ensures cell == 0 || cell == 1 ==> (next == 1 <==> n == 3 || (cell == 1 && n == 2))
    ensures cell == 0 || cell == 1 ==> (next == 0 || next == 1)
    ensures cell != 0 && cell != 1 ==> next == cell
  {
    if cell == 1 && n < 2 then 0
    else if cell == 1 && (n == 2 || n == 3) then 1
    else if cell == 1 && n > 3 then 0
    else if cell == 0 && n == 3 then 1
    else cell
  }

  /** The next state of the cell at buffer position `i`. */
  function NextAt(cells: seq<uint8>, w: nat, h: nat, i: nat): uint8
    requires Shaped(cells, w, h) && i < |cells|
  {
    IndexOnto(w, h, i);
    Rule(cells[i], NeighborCount(cells, w, h, i / w, i % w))
  }

  /** One generation: every next state is computed from the current buffer. */
  function Step(cells: seq<uint8>, w: nat, h: nat): (next: seq<uint8>)
    requires Shaped(cells, w, h)
    ensures |next| == |cells|
  {
    seq(|cells|, i requires 0 <= i < |cells| => NextAt(cells, w, h, i))
  }

  /** Each cell of the next generation is the rule applied to that cell's current
      state and its current neighbour count, so no cell sees an updated neighbour. */
  lemma StepAt(cells: seq<uint8>, w: nat, h: nat)
    requires Shaped(cells, w, h)
    ensures forall r, c :: 0 <= r < h && 0 <= c < w ==>
      Step(cells, w, h)[Index(w, h, r, c)] == Rule(cells[Index(w, h, r, c)], NeighborCount(cells, w, h, r, c))
  {
    forall r, c | 0 <= r < h && 0 <= c < w
      ensures Step(cells, w, h)[Index(w, h, r, c)] == Rule(cells[Index(w, h, r, c)], NeighborCount(cells, w, h, r, c))
    {
      IndexInverse(w, h, r, c);
    }
  }

  /** A generation keeps the shape of the buffer and, when every cell is dead or
      alive, keeps every cell dead or alive. */
  lemma StepPreservesBinary(cells: seq<uint8>, w: nat, h: nat)
    requires Shaped(cells, w, h) && Binary(cells)
    ensures Shaped(Step(cells, w, h), w, h)
    ensures Binary(Step(cells, w, h))
  {
  }

  /** A byte other than 0 or 1 survives a generation unchanged. */
  lemma StepKeepsOtherValues(cells: seq<uint8>, w: nat, h: nat, i: nat)
    requires Shaped(cells, w, h) && i < |cells|
    requires cells[i] != 0 && cells[i] != 1
    ensures Step(cells, w, h)[i] == cells[i]
  {
  }

  /** Reference definition of one generation of Conway's game on a torus: the
      rule applied to each 0/1 cell and its eight toroidal neighbours. */
  function TorusNextAt(cells: seq<uint8>, w: nat, h: nat, i: nat): uint8
    requires Shaped(cells, w, h) && Binary(cells) && i < |cells|
  {
    IndexOnto(w, h, i);
    var n := TorusNeighbors(cells, w, h, i / w, i % w);
    if n == 3 || (cells[i] == 1 && n == 2) then 1 else 0
  }

  function TorusStep(cells: seq<uint8>, w: nat, h: nat): (next: seq<uint8>)
    requires Shaped(cells, w, h) && Binary(cells)
  {
    seq(|cells|, i requires 0 <= i < |cells| => TorusNextAt(cells, w, h, i))
  }

  /** Inside the grid, `CellAt` is the cell at that row and column. */
  lemma CellAtInRange(cells: seq<uint8>, w: nat, h: nat, r: nat, c: nat)
    requires Shaped(cells, w, h) && r < h && c < w
    ensures CellAt(cells, w, h, r, c) == cells[Index(w, h, r, c)]
  {
    DivModUnique(r, h, 0, r);
    DivModUnique(c, w, 0, c);
  }

  /** The reference generation at (`r`, `c`), written with that cell's coordinates. */
  lemma TorusStepAt(cells: seq<uint8>, w: nat, h: nat, r: nat, c: nat)
    requires Shaped(cells, w, h) && Binary(cells) && r < h && c < w
    ensures |TorusStep(cells, w, h)| == |cells|
    ensures var n := TorusNeighbors(cells, w, h, r, c);
      TorusStep(cells, w, h)[Index(w, h, r, c)]
        == if n == 3 || (CellAt(cells, w, h, r, c) == 1 && n == 2) then 1 else 0
  {
    IndexInverse(w, h, r, c);
    CellAtInRange(cells, w, h, r, c);
  }

  lemma StepIsTorusStepAt(cells: seq<uint8>, w: nat, h: nat, i: nat)
    requires Shaped(cells, w, h) && Binary(cells) && i < |cells|
    requires w >= 2 && h >= 2
    ensures Step(cells, w, h)[i] == TorusNextAt(cells, w, h, i)
  {
    IndexOnto(w, h, i);
    var r, c := i / w, i % w;
    NeighborSumIsTorus(cells, w, h, r, c);
    NeighborCountBounded(cells, w, h, r, c);
  }

  /** On a grid at least two cells wide and high whose cells are all dead or
      alive, the engine's generation is Conway's game on the torus. */
  lemma StepIsTorusStep(cells: seq<uint8>, w: nat, h: nat)
    requires Shaped(cells, w, h) && Binary(cells)
    requires w >= 2 && h >= 2
    ensures Step(cells, w, h) == TorusStep(cells, w, h)
  {
    forall i | 0 <= i < |cells|
      ensures Step(cells, w, h)[i] == TorusStep(cells, w, h)[i]
    {
      StepIsTorusStepAt(cells, w, h, i);
    }
  }
}
