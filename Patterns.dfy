/** Configurations whose next generations are known: a lone cell on a 3-by-3
    grid dies, a 2-by-2 block is a still life, and a three-cell blinker on a
    5-by-5 grid oscillates with period two.

    A configuration is described by the set of row-major positions of its live
    cells. `LiveNext` is Conway's rule evaluated on such a set, with the
    neighbours of a cell named through `Prev` and `Next` around each ring;
    `LiveExactlyStep` ties it to the reference generation on the buffer. */
module Patterns {
  import opened Grid

  /** `g` has `n` cells; those whose positions are in `live` are 1, the rest 0. */
  predicate LiveExactly(g: seq<uint8>, n: nat, live: set<nat>) {
    |g| == n && forall i :: 0 <= i < n ==> g[i] == if i in live then 1 else 0
  }

  /** The coordinate before `x` on a ring of size `n`. */
  function Prev(x: nat, n: nat): (y: nat)
    requires x < n
    ensures y < n
  {
    if x == 0 then n - 1 else x - 1
  }

  /** The coordinate after `x` on a ring of size `n`. */
  function Next(x: nat, n: nat): (y: nat)
    requires x < n
    ensures y < n
  {
    if x + 1 == n then 0 else x + 1
  }

  /** 1 when the cell at row `a`, column `b` of a `w`-wide grid is in `live`. */
  function LiveAt(live: set<nat>, w: nat, a: nat, b: nat): nat {
    if a * w + b in live then 1 else 0
  }

  /** The number of live cells among the eight toroidal neighbours of (`r`, `c`). */
  function LiveNeighbors(live: set<nat>, w: nat, h: nat, r: nat, c: nat): nat
    requires r < h && c < w
  {
    var up, down, left, right := Prev(r, h), Next(r, h), Prev(c, w), Next(c, w);
    LiveAt(live, w, up, left) + LiveAt(live, w, up, c) + LiveAt(live, w, up, right) +
    LiveAt(live, w, r, left) + LiveAt(live, w, r, right) +
    LiveAt(live, w, down, left) + LiveAt(live, w, down, c) + LiveAt(live, w, down, right)
  }

  /** Conway's rule at (`r`, `c`) for the configuration whose live cells are `live`. */
  function LiveNext(live: set<nat>, w: nat, h: nat, r: nat, c: nat): uint8
    requires r < h && c < w
  {
    var n := LiveNeighbors(live, w, h, r, c);
    if n == 3 || (LiveAt(live, w, r, c) == 1 && n == 2) then 1 else 0
  }

  /** `Prev` and `Next` are the torus steps `x - 1` and `x + 1` modulo `n`. */
  lemma PrevNextWrap(x: nat, n: nat)
    requires x < n
    ensures (x - 1) % n == Prev(x, n) && x % n == x && (x + 1) % n == Next(x, n)
  {
    if x == 0 {
      DivModUnique(-1, n, -1, n - 1);
    } else {
      DivModUnique(x - 1, n, 0, x - 1);
    }
    DivModUnique(x, n, 0, x);
    if x + 1 == n {
      DivModUnique(n, n, 1, 0);
    } else {
      DivModUnique(x + 1, n, 0, x + 1);
    }
  }

  lemma CellAtLive(g: seq<uint8>, w: nat, h: nat, live: set<nat>, a: int, b: int)
    requires w > 0 && h > 0 && w * h < U32_MODULUS && LiveExactly(g, w * h, live)
    ensures Shaped(g, w, h)
    ensures CellAt(g, w, h, a, b) == LiveAt(live, w, a % h, b % w)
  {
  }

  lemma RowLive(g: seq<uint8>, w: nat, h: nat, live: set<nat>, a: int, c: int)
    requires w > 0 && h > 0 && w * h < U32_MODULUS && LiveExactly(g, w * h, live)
    ensures Shaped(g, w, h)
    ensures CellAt(g, w, h, a, c - 1) == LiveAt(live, w, a % h, (c - 1) % w)
    ensures CellAt(g, w, h, a, c) == LiveAt(live, w, a % h, c % w)
    ensures CellAt(g, w, h, a, c + 1) == LiveAt(live, w, a % h, (c + 1) % w)
  {
    CellAtLive(g, w, h, live, a, c - 1);
    CellAtLive(g, w, h, live, a, c);
    CellAtLive(g, w, h, live, a, c + 1);
  }

  lemma TorusNeighborsLive(g: seq<uint8>, w: nat, h: nat, live: set<nat>, r: nat, c: nat)
    requires w * h < U32_MODULUS && LiveExactly(g, w * h, live) && r < h && c < w
    ensures Shaped(g, w, h)
    ensures TorusNeighbors(g, w, h, r, c) == LiveNeighbors(live, w, h, r, c)
  {
    RowLive(g, w, h, live, r - 1, c);
    RowLive(g, w, h, live, r, c);
    RowLive(g, w, h, live, r + 1, c);
    PrevNextWrap(r, h);
    PrevNextWrap(c, w);
  }

  /** For a buffer whose live cells are exactly `live`, the reference generation
      at (`r`, `c`) is `LiveNext`. */
  lemma LiveExactlyStep(g: seq<uint8>, w: nat, h: nat, live: set<nat>, r: nat, c: nat)
    requires w * h < U32_MODULUS && LiveExactly(g, w * h, live) && r < h && c < w
    ensures Shaped(g, w, h) && Binary(g)
    ensures TorusStep(g, w, h)[Index(w, h, r, c)] == LiveNext(live, w, h, r, c)
  {
    TorusNeighborsLive(g, w, h, live, r, c);
    CellAtLive(g, w, h, live, r, c);
    PrevNextWrap(r, h);
    PrevNextWrap(c, w);
    TorusStepAt(g, w, h, r, c);
  }

  /** A set of live positions determines the buffer. */
  lemma LiveExactlyUnique(a: seq<uint8>, b: seq<uint8>, n: nat, live: set<nat>)
    requires LiveExactly(a, n, live) && LiveExactly(b, n, live)
    ensures a == b
  {
    assert forall i :: 0 <= i < n ==> a[i] == b[i];
  }

  /** Buffers whose live sets disagree on a position are different. */
  lemma LiveExactlyDiffer(a: seq<uint8>, b: seq<uint8>, n: nat, liveA: set<nat>, liveB: set<nat>, k: nat)
    requires LiveExactly(a, n, liveA) && LiveExactly(b, n, liveB)
    requires k < n && k in liveA && k !in liveB
    ensures a != b
  {
    assert a[k] != b[k];
  }

  /** Read back at the coordinates of position `k`, the set says whether `k` is live. */
  lemma LiveAtPosition(live: set<nat>, w: nat, h: nat, k: nat)
    requires k < w * h
    ensures w > 0 && h > 0 && k / w < h
    ensures LiveAt(live, w, k / w, k % w) == if k in live then 1 else 0
  {
    IndexOnto(w, h, k);
  }

  // ---------------------------------------------------------------------
  // A lone cell on a 3-by-3 grid
  // ---------------------------------------------------------------------

  const LONE: set<nat> := {4}

  lemma LoneLiveAt(a: nat, b: nat)
    requires a < 3 && b < 3
    ensures LiveAt(LONE, 3, a, b) == if a == 1 && b == 1 then 1 else 0
  {
  }

  /** Exactly one of the columns before, at and after `c` is column 1. */
  lemma LoneLiveRow(a: nat, c: nat)
    requires a < 3 && c < 3
    ensures LiveAt(LONE, 3, a, Prev(c, 3)) + LiveAt(LONE, 3, a, c) + LiveAt(LONE, 3, a, Next(c, 3))
      == if a == 1 then 1 else 0
  {
    LoneLiveAt(a, Prev(c, 3));
    LoneLiveAt(a, c);
    LoneLiveAt(a, Next(c, 3));
  }

  /** On a 3-by-3 torus the eight neighbours of a cell are the eight other
      cells: the centre sees no live neighbour and every other cell sees one. */
  lemma LoneLiveNext(r: nat, c: nat)
    requires r < 3 && c < 3
    ensures LiveNeighbors(LONE, 3, 3, r, c) == 1 - LiveAt(LONE, 3, r, c)
    ensures LiveNext(LONE, 3, 3, r, c) == 0
  {
    LoneLiveRow(Prev(r, 3), c);
    LoneLiveRow(r, c);
    LoneLiveRow(Next(r, 3), c);
  }

  /** One generation of the 3-by-3 grid whose only live cell is the centre
      leaves every cell dead. */
  lemma LoneCellDies(g: seq<uint8>)
    requires LiveExactly(g, 9, LONE)
    ensures Shaped(g, 3, 3) && LiveExactly(Step(g, 3, 3), 9, {})
  {
    forall k | 0 <= k < 9
      ensures TorusStep(g, 3, 3)[k] == 0
    {
      IndexOnto(3, 3, k);
      LiveExactlyStep(g, 3, 3, LONE, k / 3, k % 3);
      LoneLiveNext(k / 3, k % 3);
    }
    LiveExactlyStep(g, 3, 3, LONE, 0, 0);
    StepIsTorusStep(g, 3, 3);
  }

  // ---------------------------------------------------------------------
  // A block on a 4-by-4 grid
  // ---------------------------------------------------------------------

  /** Rows 1 and 2, columns 1 and 2. */
  const BLOCK: set<nat> := {5, 6, 9, 10}

  /** How many of the coordinates before, at and after `x` on a ring of 4 are 1 or 2. */
  function Overlap4(x: nat): nat {
    if x == 1 || x == 2 then 2 else 1
  }

  lemma BlockLiveAt(a: nat, b: nat)
    requires a < 4 && b < 4
    ensures LiveAt(BLOCK, 4, a, b) == if (a == 1 || a == 2) && (b == 1 || b == 2) then 1 else 0
  {
  }

  lemma BlockLiveRow(a: nat, c: nat)
    requires a < 4 && c < 4
    ensures LiveAt(BLOCK, 4, a, Prev(c, 4)) + LiveAt(BLOCK, 4, a, c) + LiveAt(BLOCK, 4, a, Next(c, 4))
      == if a == 1 || a == 2 then Overlap4(c) else 0
  {
    BlockLiveAt(a, Prev(c, 4));
    BlockLiveAt(a, c);
    BlockLiveAt(a, Next(c, 4));
  }

  /** The live cells around (`r`, `c`) fill an `Overlap4(r)` by `Overlap4(c)` box,
      less the cell itself. */
  lemma BlockLiveNeighbors(r: nat, c: nat)
    requires r < 4 && c < 4
    ensures LiveNeighbors(BLOCK, 4, 4, r, c) == Overlap4(r) * Overlap4(c) - LiveAt(BLOCK, 4, r, c)
  {
    BlockLiveRow(Prev(r, 4), c);
    BlockLiveRow(r, c);
    BlockLiveRow(Next(r, 4), c);
  }

  /** Each cell of the block has three live neighbours and no dead cell has
      three, so every cell keeps its state. */
  lemma BlockLiveNext(r: nat, c: nat)
    requires r < 4 && c < 4
    ensures LiveNext(BLOCK, 4, 4, r, c) == LiveAt(BLOCK, 4, r, c)
  {
    BlockLiveNeighbors(r, c);
    BlockLiveAt(r, c);
  }

  /** The block is a still life: a generation leaves the buffer unchanged. */
  lemma BlockIsStill(g: seq<uint8>)
    requires LiveExactly(g, 16, BLOCK)
    ensures Shaped(g, 4, 4) && Step(g, 4, 4) == g
  {
    forall k | 0 <= k < 16
      ensures TorusStep(g, 4, 4)[k] == g[k]
    {
      IndexOnto(4, 4, k);
      LiveExactlyStep(g, 4, 4, BLOCK, k / 4, k % 4);
      BlockLiveNext(k / 4, k % 4);
      LiveAtPosition(BLOCK, 4, 4, k);
    }
    LiveExactlyStep(g, 4, 4, BLOCK, 0, 0);
    StepIsTorusStep(g, 4, 4);
  }

  // ---------------------------------------------------------------------
  // A blinker on a 5-by-5 grid
  // ---------------------------------------------------------------------

  /** Row 2, columns 1 to 3. */
  const HORIZONTAL: set<nat> := {11, 12, 13}
  /** Column 2, rows 1 to 3. */
  const VERTICAL: set<nat> := {7, 12, 17}

  /** How many of the coordinates before, at and after `x` on a ring of 5 are 1, 2 or 3. */
  function Span5(x: nat): nat {
    if x == 2 then 3 else if x == 1 || x == 3 then 2 else 1
  }

  lemma HorizontalLiveAt(a: nat, b: nat)
    requires a < 5 && b < 5
    ensures LiveAt(HORIZONTAL, 5, a, b) == if a == 2 && 1 <= b <= 3 then 1 else 0
  {
  }

  lemma VerticalLiveAt(a: nat, b: nat)
    requires a < 5 && b < 5
    ensures LiveAt(VERTICAL, 5, a, b) == if 1 <= a <= 3 && b == 2 then 1 else 0
  {
  }

  lemma HorizontalLiveRow(a: nat, c: nat)
    requires a < 5 && c < 5
    ensures LiveAt(HORIZONTAL, 5, a, Prev(c, 5)) + LiveAt(HORIZONTAL, 5, a, c) + LiveAt(HORIZONTAL, 5, a, Next(c, 5))
      == if a == 2 then Span5(c) else 0
  {
    HorizontalLiveAt(a, Prev(c, 5));
    HorizontalLiveAt(a, c);
    HorizontalLiveAt(a, Next(c, 5));
  }

  /** The vertical blinker is summed column by column. */
  lemma VerticalLiveColumn(r: nat, b: nat)
    requires r < 5 && b < 5
    ensures LiveAt(VERTICAL, 5, Prev(r, 5), b) + LiveAt(VERTICAL, 5, r, b) + LiveAt(VERTICAL, 5, Next(r, 5), b)
      == if b == 2 then Span5(r) else 0
  {
    VerticalLiveAt(Prev(r, 5), b);
    VerticalLiveAt(r, b);
    VerticalLiveAt(Next(r, 5), b);
  }

  lemma HorizontalLiveNeighbors(r: nat, c: nat)
    requires r < 5 && c < 5
    ensures LiveNeighbors(HORIZONTAL, 5, 5, r, c) == (if 1 <= r <= 3 then Span5(c) else 0) - LiveAt(HORIZONTAL, 5, r, c)
  {
    HorizontalLiveRow(Prev(r, 5), c);
    HorizontalLiveRow(r, c);
    HorizontalLiveRow(Next(r, 5), c);
  }

  lemma VerticalLiveNeighbors(r: nat, c: nat)
    requires r < 5 && c < 5
    ensures LiveNeighbors(VERTICAL, 5, 5, r, c) == (if 1 <= c <= 3 then Span5(r) else 0) - LiveAt(VERTICAL, 5, r, c)
  {
    VerticalLiveColumn(r, Prev(c, 5));
    VerticalLiveColumn(r, c);
    VerticalLiveColumn(r, Next(c, 5));
  }

  /** The ends of the horizontal bar have one live neighbour and die, its middle
      has two and survives, and the cells above and below the middle have three
      and are born. */
  lemma HorizontalLiveNext(r: nat, c: nat)
    requires r < 5 && c < 5
    ensures LiveNext(HORIZONTAL, 5, 5, r, c) == LiveAt(VERTICAL, 5, r, c)
  {
    HorizontalLiveNeighbors(r, c);
    HorizontalLiveAt(r, c);
    VerticalLiveAt(r, c);
  }

  lemma VerticalLiveNext(r: nat, c: nat)
    requires r < 5 && c < 5
    ensures LiveNext(VERTICAL, 5, 5, r, c) == LiveAt(HORIZONTAL, 5, r, c)
  {
    VerticalLiveNeighbors(r, c);
    VerticalLiveAt(r, c);
    HorizontalLiveAt(r, c);
  }

  /** One generation turns the horizontal blinker into the vertical one. */
  lemma BlinkerTurnsVertical(g: seq<uint8>)
    requires LiveExactly(g, 25, HORIZONTAL)
    ensures Shaped(g, 5, 5) && LiveExactly(Step(g, 5, 5), 25, VERTICAL)
  {
    forall k | 0 <= k < 25
      ensures TorusStep(g, 5, 5)[k] == if k in VERTICAL then 1 else 0
    {
      IndexOnto(5, 5, k);
      LiveExactlyStep(g, 5, 5, HORIZONTAL, k / 5, k % 5);
      HorizontalLiveNext(k / 5, k % 5);
      LiveAtPosition(VERTICAL, 5, 5, k);
    }
    LiveExactlyStep(g, 5, 5, HORIZONTAL, 0, 0);
    StepIsTorusStep(g, 5, 5);
  }

  /** One generation turns the vertical blinker back into the horizontal one. */
  lemma BlinkerTurnsHorizontal(g: seq<uint8>)
    requires LiveExactly(g, 25, VERTICAL)
    ensures Shaped(g, 5, 5) && LiveExactly(Step(g, 5, 5), 25, HORIZONTAL)
  {
    forall k | 0 <= k < 25
      ensures TorusStep(g, 5, 5)[k] == if k in HORIZONTAL then 1 else 0
    {
      IndexOnto(5, 5, k);
      LiveExactlyStep(g, 5, 5, VERTICAL, k / 5, k % 5);
      VerticalLiveNext(k / 5, k % 5);
      LiveAtPosition(HORIZONTAL, 5, 5, k);
    }
    LiveExactlyStep(g, 5, 5, VERTICAL, 0, 0);
    StepIsTorusStep(g, 5, 5);
  }

  /** The blinker is an oscillator of period two: it changes, and two
      generations restore it. */
  lemma BlinkerPeriodTwo(g: seq<uint8>)
    requires LiveExactly(g, 25, HORIZONTAL)
    ensures Shaped(g, 5, 5) && Shaped(Step(g, 5, 5), 5, 5)
    ensures Step(g, 5, 5) != g
    ensures Step(Step(g, 5, 5), 5, 5) == g
  {
    assert 7 in VERTICAL && 7 !in HORIZONTAL;
    BlinkerTurnsVertical(g);
    var v := Step(g, 5, 5);
    BlinkerTurnsHorizontal(v);
    LiveExactlyUnique(Step(v, 5, 5), g, 25, HORIZONTAL);
    LiveExactlyDiffer(v, g, 25, VERTICAL, HORIZONTAL, 7);
  }
}
