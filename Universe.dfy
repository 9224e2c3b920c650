/** The engine object: a universe owning its dimensions and its cell buffer,
    seeded once, advanced one generation at a time, and rendered as text. */
module D2ca {
  import opened Grid
  import opened Render

  /** The cells seeded from one random `u32` per cell: an even draw gives a
      dead cell, an odd one a live cell. */
  function Seed(draws: seq<uint32>): (cells: seq<uint8>)
    ensures |cells| == |draws|
    ensures Binary(cells)
    ensures forall i :: 0 <= i < |draws| ==> (cells[i] == 1 <==> draws[i] % 2 == 1)
  {
    seq(|draws|, i requires 0 <= i < |draws| => if draws[i] % 2 == 0 then 0 else 1)
  }

  lemma WrappedAdd(a: nat, t: nat)
    ensures (a % 0x100 + t) % 0x100 == (a + t) % 0x100
  {
  }

  /** One iteration of the inner loop of `live_neighbor_count` adds the pair's
      term: nothing for the skipped pair, the wrapped neighbour's byte otherwise. */
  lemma ColsSumStep(cells: seq<uint8>, w: nat, h: nat, r: nat, c: nat, dr: nat, j: nat)
    requires Shaped(cells, w, h) && r < h && c < w && j < 3
    ensures var dc := Deltas(w)[j];
      ColsSum(cells, w, h, r, c, dr, j + 1) == ColsSum(cells, w, h, r, c, dr, j)
        + if dr == 0 && dc == 0 then 0 else cells[Index(w, h, (r + dr) % h, (c + dc) % w)]
  {
  }

  /** The first `k` cells of `next` already hold their next state. */
  ghost predicate Done(next: seq<uint8>, cells: seq<uint8>, w: nat, h: nat, k: nat)
    requires Shaped(cells, w, h)
  {
    |next| == |cells| && k <= |cells| && forall i :: 0 <= i < k ==> next[i] == NextAt(cells, w, h, i)
  }

  /** Writing the next state of (`row`, `col`) extends the finished prefix by one cell. */
  lemma DoneExtend(next: seq<uint8>, cells: seq<uint8>, w: nat, h: nat, row: nat, col: nat)
    requires Shaped(cells, w, h) && row < h && col < w
    requires Done(next, cells, w, h, row * w + col)
    ensures Index(w, h, row, col) == row * w + col
    ensures var idx := Index(w, h, row, col);
      Done(next[idx := Rule(cells[idx], NeighborCount(cells, w, h, row, col))], cells, w, h, row * w + col + 1)
  {
    var idx := Index(w, h, row, col);
    IndexInverse(w, h, row, col);
    assert NextAt(cells, w, h, idx) == Rule(cells[idx], NeighborCount(cells, w, h, row, col));
  }

  lemma DoneRow(next: seq<uint8>, cells: seq<uint8>, w: nat, h: nat, row: nat)
    requires Shaped(cells, w, h) && row < h
    requires Done(next, cells, w, h, row * w + w)
    ensures Done(next, cells, w, h, (row + 1) * w)
  {
    assert (row + 1) * w == row * w + w;
  }

  lemma DoneAll(next: seq<uint8>, cells: seq<uint8>, w: nat, h: nat)
    requires Shaped(cells, w, h) && Done(next, cells, w, h, h * w)
    ensures next == Step(cells, w, h)
  {
    assert h * w == |cells|;
  }

  /** Writing one chunk and its line feed advances the rendering by one line. */
  lemma ChunkAdvance(before: string, cells: seq<uint8>, w: nat, start: nat, end: nat)
    requires w > 0 && start < |cells|
    requires end == if start + w <= |cells| then start + w else |cells|
    ensures before + Line(cells[start..end]) + "\n" + Text(cells[end..], w) == before + Text(cells[start..], w)
  {
    var rest := cells[start..];
    if |rest| <= w {
      assert rest == cells[start..end];
      assert cells[end..] == [];
    } else {
      assert rest[..w] == cells[start..end];
      assert rest[w..] == cells[end..];
    }
  }

  lemma LineSnoc(before: string, line: seq<uint8>, k: nat)
    requires k < |line|
    ensures before + Line(line[..k + 1]) == before + Line(line[..k]) + [Glyph(line[k])]
  {
    assert line[..k + 1][..k] == line[..k];
  }

  class Universe {
    var width: uint32
    var height: uint32
    var cells: seq<uint8>

    /** The buffer holds exactly one byte per cell of the grid. */
    ghost predicate Valid()
      reads this
    {
      Shaped(cells, width, height)
    }

    /** `new`: a `w`-by-`h` universe seeded from `draws`, the values the random
        source would produce, one per cell in row-major order. */
    constructor (w: uint32, h: uint32, draws: seq<uint32>)
      requires w * h < U32_MODULUS && |draws| == w * h
      ensures Valid() && width == w && height == h
      ensures cells == Seed(draws) && Binary(cells)
    {
      width, height := w, h;
      cells := Seed(draws);
    }

    function Width(): uint32
      reads this
    {
      width
    }

    function Height(): uint32
      reads this
    {
      height
    }

    /** The current buffer, row-major, one byte per cell: in a valid universe
        it holds exactly `Width() * Height()` bytes. */
    function Cells(): (buffer: seq<uint8>)
      reads this
      ensures Valid() ==> |buffer| == Width() * Height()
    {
      cells
    }

    /** `live_neighbor_count`: the engine's count for the cell at (`row`, `col`),
        visiting row offsets `height - 1, 0, 1` and column offsets
        `width - 1, 0, 1` and skipping pairs whose offsets are both zero. */
    method LiveNeighborCount(row: uint32, col: uint32) returns (count: uint8)
      requires Valid() && row < height && col < width
      ensures count == NeighborCount(cells, width, height, row, col)
      ensures Binary(cells) ==> count <= 8
    {
      count := 0;
      ghost var sum: nat := 0;
      var rowDeltas, colDeltas := Deltas(height), Deltas(width);
      for i := 0 to 3
        invariant sum == RowsSum(cells, width, height, row, col, i) && count == sum % 0x100
      {
        var deltaRow := rowDeltas[i];
        for j := 0 to 3
          invariant sum == RowsSum(cells, width, height, row, col, i)
                           + ColsSum(cells, width, height, row, col, deltaRow, j)
          invariant count == sum % 0x100
        {
          var deltaCol := colDeltas[j];
          ColsSumStep(cells, width, height, row, col, deltaRow, j);
          if deltaRow == 0 && deltaCol == 0 {
            continue;
          }
          var neighborRow := (row + deltaRow) % height;
          var neighborCol := (col + deltaCol) % width;
          var idx := Index(width, height, neighborRow, neighborCol);
          WrappedAdd(sum, cells[idx]);
          sum := sum + cells[idx];
          count := (count + cells[idx]) % 0x100;
        }
      }
      if Binary(cells) {
        NeighborCountBounded(cells, width, height, row, col);
      }
    }

    /** `tick`: one generation. Every next state is computed from the buffer as
        it was before the call and written to a copy, which then replaces it. */
    method Tick()
      requires Valid()
      modifies this
      ensures Valid() && width == old(width) && height == old(height)
      ensures cells == Step(old(cells), width, height)
      ensures forall r, c :: 0 <= r < height && 0 <= c < width ==>
        cells[Index(width, height, r, c)]
          == Rule(old(cells)[Index(width, height, r, c)], NeighborCount(old(cells), width, height, r, c))
      ensures Binary(old(cells)) ==> Binary(cells)
    {
      var next: seq<uint8> := cells;
      for row := 0 to height
        invariant unchanged(this) && Done(next, cells, width, height, row * width)
      {
        for col := 0 to width
          invariant unchanged(this) && Done(next, cells, width, height, row * width + col)
        {
          var idx := Index(width, height, row, col);
          var cell := cells[idx];
          var liveNeighbors := LiveNeighborCount(row, col);
          DoneExtend(next, cells, width, height, row, col);
          next := next[idx := Rule(cell, liveNeighbors)];
        }
        DoneRow(next, cells, width, height, row);
      }
      DoneAll(next, cells, width, height);
      cells := next;
      StepAt(old(cells), width, height);
      if Binary(old(cells)) {
        StepPreservesBinary(old(cells), width, height);
      }
    }

    /** `render` and `Display::fmt`: every chunk of `width` cells is written as
        its glyphs followed by a line feed. */
    method Render() returns (out: string)
      requires width > 0
      ensures out == Text(cells, width)
    {
      out := "";
      var start := 0;
      while start < |cells|
        invariant 0 <= start <= |cells|
        invariant out + Text(cells[start..], width) == Text(cells, width)
        decreases |cells| - start
      {
        var end := if start + width <= |cells| then start + width else |cells|;
        var line := cells[start..end];
        ghost var before := out;
        for k := 0 to |line|
          invariant out == before + Line(line[..k])
        {
          var symbol := if line[k] == 0 then DEAD_GLYPH else ALIVE_GLYPH;
          LineSnoc(before, line, k);
          out := out + [symbol];
        }
        assert line[..|line|] == line;
        ChunkAdvance(before, cells, width, start, end);
        out := out + "\n";
        start := end;
      }
      assert cells[start..] == [];
    }
  }
}
