/** The text that draw_board builds: two characters per cell, each row
    opened by a line break. */
module Render {
  import opened Grid

  const LiveCellSymbol: char := 'o'
  const DeadCellSymbol: char := ' '

  function Symbol(alive: bool): char {
    if alive then LiveCellSymbol else DeadCellSymbol
  }

  /** A cell's two characters: its symbol and a space. */
  function Glyph(alive: bool): (g: string)
    ensures |g| == 2 && g[0] == Symbol(alive) && g[1] == ' '
  {
    [Symbol(alive), ' ']
  }

  /** The text after the first k cells, in the loop's own terms: a line
      break before every index that is a multiple of n, then the cell. */
  function Prefix(b: seq<bool>, n: nat, k: nat): string
    requires |b| == n * n && k <= |b|
  {
    if k == 0 then ""
    else Prefix(b, n, k - 1) + (if (k - 1) % n == 0 then "\n" else "") + Glyph(b[k - 1])
  }

  /** The first m cells of row y. */
  function RowGlyphs(b: seq<bool>, n: nat, y: int, m: nat): (r: string)
    requires |b| == n * n && 0 <= y < n && m <= n
    ensures |r| == 2 * m
  {
    if m == 0 then "" else RowGlyphs(b, n, y, m - 1) + Glyph(Lookup(b, n, Cell(m - 1, y)).value)
  }

  /** Row y on its own line. */
  function Line(b: seq<bool>, n: nat, y: int): (r: string)
    requires |b| == n * n && 0 <= y < n
    ensures |r| == 2 * n + 1
  {
    "\n" + RowGlyphs(b, n, y, n)
  }

  /** The first k rows, each on its own line. */
  function Lines(b: seq<bool>, n: nat, k: nat): (r: string)
    requires |b| == n * n && k <= n
    ensures |r| == k * (2 * n + 1)
  {
    if k == 0 then "" else Lines(b, n, k - 1) + Line(b, n, k - 1)
  }

  /** The board as text: all n rows. */
  function BoardText(b: seq<bool>, n: nat): string
    requires |b| == n * n
  {
    Lines(b, n, n)
  }

  lemma ModOfIndex(n: nat, y: int, j: int)
    requires 0 <= y < n && 0 <= j < n
    ensures (y * n + j) % n == j
  {
    EncodeRoundTrip(n, Cell(j, y));
  }

  /** Part way through row y the loop has written the rows before it and
      the first m cells of row y. */
  lemma {:induction false} PrefixInRow(b: seq<bool>, n: nat, y: nat, m: nat)
    requires |b| == n * n && y < n && 1 <= m <= n
    ensures y * n + m <= |b|
    ensures Prefix(b, n, y * n + m) == Lines(b, n, y) + "\n" + RowGlyphs(b, n, y, m)
    decreases y, m
  {
    EncodeRoundTrip(n, Cell(m - 1, y));
    var i := y * n + m - 1;
    assert b[i] == Lookup(b, n, Cell(m - 1, y)).value;
    ModOfIndex(n, y, m - 1);
    if m == 1 {
      PrefixAtRows(b, n, y);
    } else {
      PrefixInRow(b, n, y, m - 1);
    }
  }

  /** After whole rows the loop has written exactly those rows. */
  lemma {:induction false} PrefixAtRows(b: seq<bool>, n: nat, y: nat)
    requires |b| == n * n && y <= n
    ensures y * n <= |b|
    ensures Prefix(b, n, y * n) == Lines(b, n, y)
    decreases y, 0
  {
    MulLeq(y, n, n);
    if y > 0 {
      assert (y - 1) * n + n == y * n;
      PrefixInRow(b, n, y - 1, n);
    }
  }

  lemma {:induction false} RowGlyphsPrefix(b: seq<bool>, n: nat, y: int, j: nat, m: nat)
    requires |b| == n * n && 0 <= y < n && j <= m <= n
    ensures RowGlyphs(b, n, y, j) <= RowGlyphs(b, n, y, m)
    decreases m
  {
    if j < m {
      RowGlyphsPrefix(b, n, y, j, m - 1);
    }
  }

  /** Within row y's line: the line break, then cell x's symbol at
      column 2x+1 and a space after it. */
  lemma LineLayout(b: seq<bool>, n: nat, c: Cell)
    requires |b| == n * n && InBounds(n, c)
    ensures var line := Line(b, n, c.y);
            && line[0] == '\n'
            && line[1 + 2 * c.x] == Symbol(Lookup(b, n, c).value)
            && line[2 + 2 * c.x] == ' '
  {
    var row := RowGlyphs(b, n, c.y, n);
    var upTo := RowGlyphs(b, n, c.y, c.x + 1);
    RowGlyphsPrefix(b, n, c.y, c.x + 1, n);
    assert upTo == RowGlyphs(b, n, c.y, c.x) + Glyph(Lookup(b, n, c).value);
    assert row[2 * c.x] == upTo[2 * c.x];
    assert row[2 * c.x + 1] == upTo[2 * c.x + 1];
  }

  /** The text of whole rows is their lines side by side: character j of
      line y sits at y*(2n+1) + j. */
  lemma {:induction false} LinesAt(b: seq<bool>, n: nat, k: nat, y: nat, j: nat)
    requires |b| == n * n && y < k <= n && j < 2 * n + 1
    ensures y * (2 * n + 1) + j < |Lines(b, n, k)|
    ensures Lines(b, n, k)[y * (2 * n + 1) + j] == Line(b, n, y)[j]
    decreases k
  {
    var front, last := Lines(b, n, k - 1), Line(b, n, k - 1);
    assert Lines(b, n, k) == front + last;
    if y < k - 1 {
      LinesAt(b, n, k - 1, y, j);
    } else {
      assert |front| == y * (2 * n + 1);
    }
  }

  /** The layout of the text: n lines of 2n+1 characters; line y starts
      with a line break, and cell (x, y) is the symbol at column 2x+1 of
      that line, followed by a space. */
  lemma TextLayout(b: seq<bool>, n: nat, c: Cell)
    requires |b| == n * n && InBounds(n, c)
    ensures var t := BoardText(b, n);
            var at := c.y * (2 * n + 1);
            && |t| == n * (2 * n + 1)
            && at + 2 * c.x + 2 < |t|
            && t[at] == '\n'
            && t[at + 1 + 2 * c.x] == Symbol(Lookup(b, n, c).value)
            && t[at + 2 + 2 * c.x] == ' '
  {
    LineLayout(b, n, c);
    LinesAt(b, n, n, c.y, 0);
    LinesAt(b, n, n, c.y, 1 + 2 * c.x);
    LinesAt(b, n, n, c.y, 2 + 2 * c.x);
  }
}
