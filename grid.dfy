/** Coordinates on the n-by-n board, the flat row-major index, and the
    reads and writes of a single cell on the board's contents. */
module Grid {

  /** A coordinate pair: x is the column, y the row. */
  datatype Cell = Cell(x: int, y: int)

  /** The ways the board's operations raise IndexError. */
  datatype Error =
    | CellOutOfRange(cell: Cell)     // raised by get_cell's own bounds test
    | IndexOutOfRange(index: int)    // raised by the array when a write misses it
    | EmptyChoice                    // raised by random.choice on an empty range

  datatype Result<T> = Ok(value: T) | Err(error: Error)

  datatype Outcome = Pass | Fail(error: Error)

  predicate InBounds(n: int, c: Cell) {
    0 <= c.x < n && 0 <= c.y < n
  }

  /** The flat index of a cell, row-major. */
  function Index(n: int, c: Cell): int {
    c.y * n + c.x
  }

  /** Decodes a flat index the way the step loop does: the row by floor
      division, the column as what is left over. */
  function CellOf(n: nat, i: nat): Cell
    requires n > 0
  {
    var py := i / n;
    Cell(i - py * n, py)
  }

  /** An all-dead board of n*n cells. */
  function Dead(n: nat): (b: seq<bool>)
    ensures |b| == n * n
    ensures forall i :: 0 <= i < |b| ==> !b[i]
  {
    seq(n * n, _ => false)
  }

  lemma IndexInBounds(n: nat, c: Cell)
    requires InBounds(n, c)
    ensures 0 <= Index(n, c) < n * n
  {
    assert c.y * n <= (n - 1) * n by {
      MulLeq(c.y, n - 1, n);
    }
  }

  lemma MulLeq(a: int, b: int, n: nat)
    requires 0 <= a <= b
    ensures a * n <= b * n
  {
  }

  /** Every index of the board decodes to an in-range cell that encodes
      back to that index. */
  lemma {:induction false} DecodeRoundTrip(n: nat, i: nat)
    requires i < n * n
    ensures n > 0
    ensures InBounds(n, CellOf(n, i))
    ensures Index(n, CellOf(n, i)) == i
  {
    var py := i / n;
    assert py * n <= i < py * n + n;
    if py >= n {
      MulLeq(n, py, n);
      assert false;
    }
  }

  /** Every in-range cell encodes to an index of the board that decodes
      back to that cell: encoding is a bijection between the cells and
      the indices [0, n*n). */
  lemma {:induction false} EncodeRoundTrip(n: nat, c: Cell)
    requires InBounds(n, c)
    ensures 0 <= Index(n, c) < n * n
    ensures CellOf(n, Index(n, c)) == c
  {
    IndexInBounds(n, c);
    var i := Index(n, c);
    var q := i / n;
    var r := i - q * n;
    assert 0 <= r < n;
    assert (c.y - q) * n == r - c.x;
    if c.y - q >= 1 {
      MulLeq(1, c.y - q, n);
      assert false;
    } else if c.y - q <= -1 {
      MulLeq(1, q - c.y, n);
      assert false;
    }
  }

  /** Distinct in-range cells have distinct indices. */
  lemma IndexInjective(n: nat, c: Cell, d: Cell)
    requires InBounds(n, c) && InBounds(n, d)
    ensures Index(n, c) == Index(n, d) <==> c == d
  {
    EncodeRoundTrip(n, c);
    EncodeRoundTrip(n, d);
  }

  /** get_cell on the board's contents: an out-of-range coordinate on
      either axis raises, anything else reads the flat index. */
  function Lookup(b: seq<bool>, n: nat, c: Cell): (r: Result<bool>)
    requires |b| == n * n
    ensures r.Err? <==> !InBounds(n, c)
    ensures r.Err? ==> r.error == CellOutOfRange(c)
    ensures r.Ok? ==> 0 <= Index(n, c) < |b| && r.value == b[Index(n, c)]
  {
    if c.y < 0 || c.y >= n || c.x < 0 || c.x >= n then
      Err(CellOutOfRange(c))
    else
      IndexInBounds(n, c);
      Ok(b[c.y * n + c.x])
  }

  /** Python's reading of a possibly negative list index: -len <= i < 0
      counts from the end, anything outside [-len, len) raises. */
  function PyIndex(len: nat, i: int): (r: Result<nat>)
    ensures r.Ok? <==> -(len as int) <= i < len
    ensures r.Ok? ==> r.value < len && r.value % len == i % len
    ensures r.Err? ==> r.error == IndexOutOfRange(i)
  {
    if 0 <= i < len then Ok(i)
    else if -(len as int) <= i < 0 then Ok(i + len)
    else Err(IndexOutOfRange(i))
  }

  /** set_cell (and set_temp_cell) on a buffer's contents: the write goes
      to the flat index with no test of the coordinates, so it is the
      array's own index rules that decide where it lands or whether it
      raises. */
  function Store(b: seq<bool>, n: nat, c: Cell, v: bool): (r: Result<seq<bool>>)
    ensures r.Ok? <==> -|b| <= Index(n, c) < |b|
    ensures r.Ok? ==> |r.value| == |b|
    ensures r.Err? ==> r.error == IndexOutOfRange(Index(n, c))
    ensures r.Ok? ==> forall j :: 0 <= j < |b| ==>
      r.value[j] == if j == PyIndex(|b|, Index(n, c)).value then v else b[j]
  {
    match PyIndex(|b|, c.y * n + c.x)
    case Ok(i) => Ok(b[i := v])
    case Err(e) => Err(e)
  }

  /** On an in-range cell the write succeeds, the cell reads back as the
      value written, and every other cell reads as before. */
  lemma StoreInBounds(b: seq<bool>, n: nat, c: Cell, v: bool)
    requires |b| == n * n
    requires InBounds(n, c)
    ensures 0 <= Index(n, c) < |b|
    ensures Store(b, n, c, v) == Ok(b[Index(n, c) := v])
    ensures Lookup(Store(b, n, c, v).value, n, c) == Ok(v)
    ensures forall d :: d != c ==> Lookup(Store(b, n, c, v).value, n, d) == Lookup(b, n, d)
  {
    IndexInBounds(n, c);
    forall d | d != c
      ensures Lookup(Store(b, n, c, v).value, n, d) == Lookup(b, n, d)
    {
      if InBounds(n, d) {
        IndexInjective(n, c, d);
      }
    }
  }

  /** A write one row above the board (y == -1) does not raise: the
      negative index wraps round to the same column of the last row. */
  lemma StoreWrapsFromAbove(b: seq<bool>, n: nat, x: int, v: bool)
    requires |b| == n * n
    requires 0 <= x < n
    ensures Store(b, n, Cell(x, -1), v).Ok?
    ensures Store(b, n, Cell(x, -1), v) == Store(b, n, Cell(x, n - 1), v)
  {
    assert Index(n, Cell(x, n - 1)) == Index(n, Cell(x, -1)) + n * n;
    IndexInBounds(n, Cell(x, n - 1));
  }

  /** A write one row below the board (y == n) always raises. */
  lemma StoreFailsBelow(b: seq<bool>, n: nat, x: int, v: bool)
    requires |b| == n * n
    requires 0 <= x < n
    ensures Store(b, n, Cell(x, n), v) == Err(IndexOutOfRange(n * n + x))
  {
  }

  /** The contents b with every in-range cell of s made live and every
      other cell left as it was. */
  function Paint(b: seq<bool>, n: nat, s: set<Cell>): (r: seq<bool>)
    requires |b| == n * n
    ensures |r| == |b|
  {
    seq(|b|, i requires 0 <= i < |b| => PaintedAt(b, n, s, i))
  }

  function PaintedAt(b: seq<bool>, n: nat, s: set<Cell>, i: nat): bool
    requires |b| == n * n && i < |b|
  {
    DecodeRoundTrip(n, i);
    b[i] || CellOf(n, i) in s
  }

  lemma PaintAt(b: seq<bool>, n: nat, s: set<Cell>, c: Cell)
    requires |b| == n * n
    requires InBounds(n, c)
    ensures Lookup(Paint(b, n, s), n, c) == Ok(Lookup(b, n, c).value || c in s)
  {
    EncodeRoundTrip(n, c);
    var i := Index(n, c);
    var p := Paint(b, n, s);
    assert p[i] == PaintedAt(b, n, s, i) == (b[i] || c in s);
    assert Lookup(p, n, c) == Ok(p[i]);
  }

  /** Painting one more cell is one more write of a live value. */
  lemma PaintAdd(b: seq<bool>, n: nat, s: set<Cell>, c: Cell)
    requires |b| == n * n
    requires InBounds(n, c)
    ensures Store(Paint(b, n, s), n, c, true) == Ok(Paint(b, n, s + {c}))
  {
    StoreInBounds(Paint(b, n, s), n, c, true);
    var lhs := Store(Paint(b, n, s), n, c, true).value;
    var rhs := Paint(b, n, s + {c});
    forall i | 0 <= i < |b|
      ensures lhs[i] == rhs[i]
    {
      DecodeRoundTrip(n, i);
      var d := CellOf(n, i);
      if d == c {
        assert i == Index(n, c);
      } else {
        IndexInjective(n, c, d);
        assert lhs[i] == Paint(b, n, s)[i] == PaintedAt(b, n, s, i);
      }
    }
    assert lhs == rhs;
  }

  /** An all-dead board with exactly the cells of s live. */
  function Pattern(n: nat, s: set<Cell>): (r: seq<bool>)
    ensures |r| == n * n
  {
    Paint(Dead(n), n, s)
  }

  lemma PatternAt(n: nat, s: set<Cell>, c: Cell)
    requires InBounds(n, c)
    ensures Lookup(Pattern(n, s), n, c) == Ok(c in s)
  {
    PaintAt(Dead(n), n, s, c);
  }

  /** Two contents of the same board are equal when every in-range cell
      reads the same. */
  lemma {:induction false} Extensional(b1: seq<bool>, b2: seq<bool>, n: nat)
    requires |b1| == n * n && |b2| == n * n
    requires forall c :: InBounds(n, c) ==> Lookup(b1, n, c) == Lookup(b2, n, c)
    ensures b1 == b2
  {
    forall i | 0 <= i < |b1|
      ensures b1[i] == b2[i]
    {
      DecodeRoundTrip(n, i);
      assert Lookup(b1, n, CellOf(n, i)) == Lookup(b2, n, CellOf(n, i));
    }
  }
}
