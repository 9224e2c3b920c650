/** The text form of a universe: each row of the buffer becomes a line of
    glyphs, a white square for a dead cell and a black square otherwise,
    followed by a line feed. */
module Render {
  import opened Grid

  const DEAD_GLYPH: char := '□'
  const ALIVE_GLYPH: char := '■'

  function Glyph(cell: uint8): (g: char)
    ensures g == DEAD_GLYPH <==> cell == 0
  {
    if cell == 0 then DEAD_GLYPH else ALIVE_GLYPH
  }

  /** The glyphs of one chunk of cells. */
  function Line(cells: seq<uint8>): (s: string)
    ensures |s| == |cells|
  {
    seq(|cells|, k requires 0 <= k < |cells| => Glyph(cells[k]))
  }

  /** The formatter's output: the buffer cut into chunks of `w` cells (the last
      one shorter when `w` does not divide the length), each chunk's glyphs
      followed by a line feed. */
  function Text(cells: seq<uint8>, w: nat): string
    requires w > 0
    decreases |cells|
  {
    if |cells| == 0 then ""
    else if |cells| <= w then Line(cells) + "\n"
    else Line(cells[..w]) + "\n" + Text(cells[w..], w)
  }

  /** Reads a rendering back into cells: line feeds are dropped, the dead glyph
      is 0 and any other character 1. */
  function Decode(text: string): seq<uint8>
  {
    if text == "" then []
    else if text[0] == '\n' then Decode(text[1..])
    else [if text[0] == DEAD_GLYPH then 0 else 1] + Decode(text[1..])
  }

  /** The rendering of a `w`-by-`h` grid has `h` lines of `w + 1` characters. */
  lemma {:induction false} TextLength(cells: seq<uint8>, w: nat, h: nat)
    requires w > 0 && |cells| == w * h
    ensures |Text(cells, w)| == h * (w + 1)
  {
    if h == 1 {
      assert Text(cells, w) == Line(cells) + "\n";
    } else if h > 1 {
      var rest := cells[w..];
      assert |rest| == w * (h - 1);
      TextLength(rest, w, h - 1);
      assert Text(cells, w) == Line(cells[..w]) + "\n" + Text(rest, w);
    }
  }

  lemma ShiftRow(w: nat, r: nat, c: nat)
    requires r > 0
    ensures r * (w + 1) + c == (w + 1) + ((r - 1) * (w + 1) + c)
    ensures r * w + c == w + ((r - 1) * w + c)
  {
  }

  /** The first line of the rendering. */
  lemma TextFirstLine(cells: seq<uint8>, w: nat, c: nat)
    requires w > 0 && |cells| >= w && c <= w
    ensures c < |Text(cells, w)|
    ensures c < w ==> Text(cells, w)[c] == Glyph(cells[c])
    ensures c == w ==> Text(cells, w)[c] == '\n'
  {
    var head := Line(cells[..w]) + "\n";
    if |cells| == w {
      assert cells[..w] == cells;
      assert Text(cells, w) == head;
    } else {
      assert Text(cells, w) == head + Text(cells[w..], w);
    }
  }

  /** Past the first line, a rendering continues with the rendering of the rows after the first. */
  lemma TextLaterLine(cells: seq<uint8>, w: nat, p: nat)
    requires w > 0 && |cells| > w
    requires p < |Text(cells[w..], w)|
    ensures (w + 1) + p < |Text(cells, w)|
    ensures Text(cells, w)[(w + 1) + p] == Text(cells[w..], w)[p]
  {
    var head, rest := Line(cells[..w]) + "\n", Text(cells[w..], w);
    assert Text(cells, w) == head + rest;
    assert |head| == w + 1;
  }

  /** Column `c < w` of line `r` of the rendering, for a buffer holding at least
      `r + 1` full rows; `at` and `base` are where that row starts in the buffer
      and in the text. */
  lemma {:induction false} TextGlyphAt(cells: seq<uint8>, w: nat, r: nat, c: nat, at: nat, base: nat)
    requires c < w && at == r * w && base == at + r && at + w <= |cells|
    ensures base + c < |Text(cells, w)| && Text(cells, w)[base + c] == Glyph(cells[at + c])
  {
    if r == 0 {
      TextFirstLine(cells, w, c);
    } else {
      ShiftRow(w, r, 0);
      var p := base - (w + 1) + c;
      TextGlyphAt(cells[w..], w, r - 1, c, at - w, base - (w + 1));
      TextLaterLine(cells, w, p);
      assert cells[at + c] == cells[w..][at - w + c];
    }
  }

  /** The line feed that ends line `r`. */
  lemma {:induction false} TextNewlineAt(cells: seq<uint8>, w: nat, r: nat, at: nat, base: nat)
    requires w > 0 && at == r * w && base == at + r && at + w <= |cells|
    ensures base + w < |Text(cells, w)| && Text(cells, w)[base + w] == '\n'
  {
    if r == 0 {
      TextFirstLine(cells, w, w);
    } else {
      ShiftRow(w, r, 0);
      TextNewlineAt(cells[w..], w, r - 1, at - w, base - (w + 1));
      TextLaterLine(cells, w, base - (w + 1) + w);
    }
  }

  /** Character `c` of line `r` of the rendering of a `w`-by-`h` grid: for `c < w`
      the glyph of cell (`r`, `c`), which is the dead glyph exactly when that cell
      is 0; for `c == w` the line feed. */
  lemma TextAt(cells: seq<uint8>, w: nat, h: nat, r: nat, c: nat)
    requires w > 0 && |cells| == w * h && r < h && c <= w
    ensures r * (w + 1) + c < |Text(cells, w)|
    ensures c < w ==> r * w + c < |cells| && Text(cells, w)[r * (w + 1) + c] == Glyph(cells[r * w + c])
    ensures c < w ==> (Text(cells, w)[r * (w + 1) + c] == DEAD_GLYPH <==> cells[r * w + c] == 0)
    ensures c == w ==> Text(cells, w)[r * (w + 1) + c] == '\n'
  {
    RowMajorBound(w, h, r, w - 1);
    assert r * (w + 1) == r * w + r;
    if c < w {
      TextGlyphAt(cells, w, r, c, r * w, r * w + r);
    } else {
      TextNewlineAt(cells, w, r, r * w, r * w + r);
    }
  }

  lemma {:induction false} DecodeAppend(a: string, b: string)
    ensures Decode(a + b) == Decode(a) + Decode(b)
  {
    if a == "" {
      assert a + b == b;
    } else {
      assert (a + b)[1..] == a[1..] + b;
      DecodeAppend(a[1..], b);
    }
  }

  lemma {:induction false} DecodeLine(cells: seq<uint8>)
    requires Binary(cells)
    ensures Decode(Line(cells)) == cells
  {
    if cells != [] {
      assert Line(cells) == [Glyph(cells[0])] + Line(cells[1..]);
      DecodeAppend([Glyph(cells[0])], Line(cells[1..]));
      DecodeLine(cells[1..]);
      assert cells == [cells[0]] + cells[1..];
    }
  }

  /** Decoding a chunk's line and its line feed yields the chunk. */
  lemma DecodeChunk(chunk: seq<uint8>, rest: string)
    requires Binary(chunk)
    ensures Decode(Line(chunk) + "\n" + rest) == chunk + Decode(rest)
  {
    DecodeAppend(Line(chunk) + "\n", rest);
    DecodeAppend(Line(chunk), "\n");
    DecodeLine(chunk);
    assert Decode("\n") == [];
  }

  /** Mapping the glyphs of a rendering back reconstructs a 0/1 buffer exactly. */
  lemma {:induction false} TextRoundTrip(cells: seq<uint8>, w: nat)
    requires w > 0 && Binary(cells)
    ensures Decode(Text(cells, w)) == cells
    decreases |cells|
  {
    if |cells| == 0 {
    } else if |cells| <= w {
      assert Text(cells, w) == Line(cells) + "\n" + "";
      DecodeChunk(cells, "");
      assert cells + [] == cells;
    } else {
      DecodeChunk(cells[..w], Text(cells[w..], w));
      TextRoundTrip(cells[w..], w);
      assert cells == cells[..w] + cells[w..];
    }
  }
}
