/** The Board: the current grid, the scratch grid the next generation is
    computed into, and the operations that seed, read, step and draw it. */
module Life {
  import opened Grid
  import opened Rules
  import opened Patterns
  import opened Render

  /** The set of cells among the draws: repeats collapse. */
  function Drawn(draws: seq<Cell>): set<Cell> {
    set i | 0 <= i < |draws| :: draws[i]
  }

  predicate Distinct(draws: seq<Cell>) {
    forall i, j :: 0 <= i < j < |draws| ==> draws[i] != draws[j]
  }

  /** There are never more drawn cells than draws, and there are exactly
      as many only when no draw repeats an earlier one. */
  lemma {:induction false} DrawnCount(draws: seq<Cell>)
    ensures |Drawn(draws)| <= |draws|
    ensures |Drawn(draws)| == |draws| <==> Distinct(draws)
  {
    if draws != [] {
      var k := |draws| - 1;
      var front, last := draws[..k], draws[k];
      DrawnCount(front);
      assert Drawn(draws) == Drawn(front) + {last} by {
        forall d | d in Drawn(draws) ensures d in Drawn(front) + {last} {
          var i :| 0 <= i < |draws| && draws[i] == d;
          if i < k { assert front[i] == d; }
        }
        forall d | d in Drawn(front) ensures d in Drawn(draws) {
          var i :| 0 <= i < |front| && front[i] == d;
          assert draws[i] == d;
        }
      }
      if last in Drawn(front) {
        var i :| 0 <= i < |front| && front[i] == last;
        assert draws[i] == draws[k];
      } else {
        if Distinct(front) {
          forall i, j | 0 <= i < j < |draws| ensures draws[i] != draws[j] {
            if j < k {
              assert draws[i] == front[i] && draws[j] == front[j];
            } else {
              assert draws[i] == front[i]; assert front[i] in Drawn(front);
            }
          }
        } else {
          var i, j :| 0 <= i < j < |front| && front[i] == front[j];
          assert draws[i] == draws[j];
        }
      }
    }
  }

  /** set_cell a cell after another, stopping at the first write that
      raises: the contents reached, and whether every write went through. */
  function StoreEach(b: seq<bool>, n: nat, cs: seq<Cell>, v: bool): (r: (seq<bool>, Outcome))
    ensures |r.0| == |b|
    decreases |cs|
  {
    if cs == [] then (b, Pass)
    else
      match Store(b, n, cs[0], v)
      case Err(e) => (b, Fail(e))
      case Ok(next) => StoreEach(next, n, cs[1..], v)
  }

  /** The three writes of set_blinker, in its order. */
  function BlinkerWrites(c: Cell): seq<Cell> {
    [c, Cell(c.x, c.y - 1), Cell(c.x, c.y + 1)]
  }

  lemma PaintNothing(b: seq<bool>, n: nat)
    requires |b| == n * n
    ensures Paint(b, n, {}) == b
  {
    forall c | InBounds(n, c) ensures Lookup(Paint(b, n, {}), n, c) == Lookup(b, n, c) {
      PaintAt(b, n, {}, c);
    }
    Extensional(Paint(b, n, {}), b, n);
  }

  /** One write that lands, then the rest of the run. */
  lemma StoreEachHead(b: seq<bool>, n: nat, c: Cell, rest: seq<Cell>, v: bool, next: seq<bool>)
    requires Store(b, n, c, v) == Ok(next)
    ensures StoreEach(b, n, [c] + rest, v) == StoreEach(next, n, rest, v)
  {
    assert ([c] + rest)[0] == c;
    assert ([c] + rest)[1..] == rest;
  }

  /** A run of live writes that all land in range paints exactly the
      cells written, in whatever order and with whatever repeats. */
  lemma {:induction false} StoreEachPaints(b: seq<bool>, n: nat, s: set<Cell>, cs: seq<Cell>)
    requires |b| == n * n
    requires forall i :: 0 <= i < |cs| ==> InBounds(n, cs[i])
    ensures StoreEach(Paint(b, n, s), n, cs, true) == (Paint(b, n, s + Drawn(cs)), Pass)
    decreases |cs|
  {
    if cs == [] {
      assert s + Drawn(cs) == s;
    } else {
      var rest := cs[1..];
      PaintAdd(b, n, s, cs[0]);
      assert cs == [cs[0]] + rest;
      StoreEachHead(Paint(b, n, s), n, cs[0], rest, true, Paint(b, n, s + {cs[0]}));
      StoreEachPaints(b, n, s + {cs[0]}, rest);
      assert s + {cs[0]} + Drawn(rest) == s + Drawn(cs) by {
        forall d | d in Drawn(cs) ensures d in {cs[0]} + Drawn(rest) {
          var i :| 0 <= i < |cs| && cs[i] == d;
          if i > 0 { assert rest[i - 1] == d; }
        }
        forall d | d in Drawn(rest) ensures d in Drawn(cs) {
          var i :| 0 <= i < |rest| && rest[i] == d;
          assert cs[i + 1] == d;
        }
      }
    }
  }

  /** Away from the top and bottom rows set_blinker makes exactly the
      three cells of a vertical blinker live and touches nothing else. */
  lemma BlinkerInside(b: seq<bool>, n: nat, c: Cell)
    requires |b| == n * n
    requires 0 <= c.x < n && 1 <= c.y <= n - 2
    ensures StoreEach(b, n, BlinkerWrites(c), true) == (Paint(b, n, Vertical(c)), Pass)
  {
    var ws := BlinkerWrites(c);
    PaintNothing(b, n);
    StoreEachPaints(b, n, {}, ws);
    assert Drawn(ws) == Vertical(c) by {
      assert ws[0] == c && ws[1] == Cell(c.x, c.y - 1) && ws[2] == Cell(c.x, c.y + 1);
    }
    assert {} + Drawn(ws) == Vertical(c);
  }

  /** Centred on row 0, the write above the board wraps to the last row:
      set_blinker then makes live the centre, the cell below it and the
      cell of the same column on the bottom row, and raises nothing. */
  lemma BlinkerOnTopRow(b: seq<bool>, n: nat, c: Cell)
    requires |b| == n * n
    requires 0 <= c.x < n && c.y == 0 && n >= 2
    ensures StoreEach(b, n, BlinkerWrites(c), true) ==
      (Paint(b, n, {c, Cell(c.x, n - 1), Cell(c.x, 1)}), Pass)
  {
    var above, wrapped, below := Cell(c.x, -1), Cell(c.x, n - 1), Cell(c.x, 1);
    var ws := [c, wrapped, below];
    PaintNothing(b, n);
    StoreEachPaints(b, n, {}, ws);
    assert Drawn(ws) == {c, wrapped, below} by {
      assert ws[0] == c && ws[1] == wrapped && ws[2] == below;
    }
    assert {} + Drawn(ws) == {c, wrapped, below};
    // The first write is the same on both runs; the second lands on the
    // same index either way.
    PaintAdd(b, n, {}, c);
    var b1 := Paint(b, n, {} + {c});
    StoreEachHead(Paint(b, n, {}), n, c, [above, below], true, b1);
    StoreEachHead(Paint(b, n, {}), n, c, [wrapped, below], true, b1);
    StoreWrapsFromAbove(b1, n, c.x, true);
    var b2 := Store(b1, n, wrapped, true).value;
    StoreEachHead(b1, n, above, [below], true, b2);
    StoreEachHead(b1, n, wrapped, [below], true, b2);
    assert BlinkerWrites(c) == [c] + [above, below];
    assert ws == [c] + [wrapped, below];
    assert [above, below] == [above] + [below];
    assert [wrapped, below] == [wrapped] + [below];
  }

  /** Centred on the bottom row, the write below the board raises after
      the centre and the cell above it have been made live. */
  lemma BlinkerOnBottomRow(b: seq<bool>, n: nat, c: Cell)
    requires |b| == n * n
    requires 0 <= c.x < n && c.y == n - 1 && n >= 2
    ensures StoreEach(b, n, BlinkerWrites(c), true) ==
      (Paint(b, n, {c, Cell(c.x, n - 2)}), Fail(IndexOutOfRange(n * n + c.x)))
  {
    var up, below := Cell(c.x, n - 2), Cell(c.x, n);
    PaintNothing(b, n);
    PaintAdd(b, n, {}, c);
    var b1 := Paint(b, n, {} + {c});
    PaintAdd(b, n, {} + {c}, up);
    assert {} + {c} + {up} == {c, up};
    var b2 := Paint(b, n, {c, up});
    StoreFailsBelow(b2, n, c.x, true);
    assert BlinkerWrites(c) == [c] + [up, below];
    assert [up, below] == [up] + [below];
    StoreEachHead(Paint(b, n, {}), n, c, [up, below], true, b1);
    StoreEachHead(b1, n, up, [below], true, b2);
    assert StoreEach(b2, n, [below], true) == (b2, Fail(IndexOutOfRange(n * n + c.x)));
  }

  class Board {
    const size: nat
    var board: array<bool>
    var tempBoard: array<bool>

    /** Both grids hold size*size cells and are distinct buffers. */
    ghost predicate Valid()
      reads this
    {
      board.Length == size * size && tempBoard.Length == size * size && board != tempBoard
    }

    /** make_board: a fresh all-dead grid. */
    static method MakeBoard(boardSize: nat) returns (a: array<bool>)
      ensures fresh(a)
      ensures a[..] == Dead(boardSize)
    {
      a := new bool[boardSize * boardSize](_ => false);
    }

    constructor (boardSize: nat)
      ensures Valid() && size == boardSize
      ensures fresh(board) && fresh(tempBoard)
      ensures board[..] == Dead(boardSize) && tempBoard[..] == Dead(boardSize)
    {
      var current := MakeBoard(boardSize);
      var scratch := MakeBoard(boardSize);
      size := boardSize;
      board := current;
      tempBoard := scratch;
    }

    /** The write shared by set_cell and set_temp_cell: Python's index
        rules on the flat index, no test of the coordinates. */
    static method Write(a: array<bool>, n: nat, c: Cell, v: bool) returns (o: Outcome)
      modifies a
      ensures match Store(old(a[..]), n, c, v)
              case Ok(s) => o == Pass && a[..] == s
              case Err(e) => o == Fail(e) && a[..] == old(a[..])
    {
      var i := c.y * n + c.x;
      var len := a.Length;
      if 0 <= i < len {
        a[i] := v;
        o := Pass;
      } else if -len <= i < 0 {
        a[i + len] := v;
        o := Pass;
      } else {
        o := Fail(IndexOutOfRange(i));
      }
    }

    /** set_cell: writes the current grid and leaves the scratch grid. */
    method SetCell(c: Cell, value: bool) returns (o: Outcome)
      requires Valid()
      modifies board
      ensures Valid()
      ensures match Store(old(board[..]), size, c, value)
              case Ok(s) => o == Pass && board[..] == s
              case Err(e) => o == Fail(e) && board[..] == old(board[..])
      ensures tempBoard[..] == old(tempBoard[..])
    {
      o := Write(board, size, c, value);
    }

    /** set_temp_cell: writes the scratch grid and leaves the current one. */
    method SetTempCell(c: Cell, value: bool) returns (o: Outcome)
      requires Valid()
      modifies tempBoard
      ensures Valid()
      ensures match Store(old(tempBoard[..]), size, c, value)
              case Ok(s) => o == Pass && tempBoard[..] == s
              case Err(e) => o == Fail(e) && tempBoard[..] == old(tempBoard[..])
      ensures board[..] == old(board[..])
    {
      o := Write(tempBoard, size, c, value);
    }

    /** get_cell: raises exactly when a coordinate is outside [0, size),
        else reads the current grid; nothing changes. */
    method GetCell(c: Cell) returns (r: Result<bool>)
      requires Valid()
      ensures r == Lookup(board[..], size, c)
      ensures r.Err? <==> !InBounds(size, c)
    {
      if c.y < 0 || c.y >= size || c.x < 0 || c.x >= size {
        r := Err(CellOutOfRange(c));
      } else {
        IndexInBounds(size, c);
        r := Ok(board[c.y * size + c.x]);
      }
    }

    /** zero_temp_board: clears the scratch grid in place. */
    method ZeroTempBoard()
      requires Valid()
      modifies tempBoard
      ensures Valid()
      ensures tempBoard[..] == Dead(size)
      ensures board[..] == old(board[..])
    {
      var i := 0;
      while i < tempBoard.Length
        invariant 0 <= i <= tempBoard.Length
        invariant forall j :: 0 <= j < i ==> !tempBoard[j]
        invariant board[..] == old(board[..])
      {
        tempBoard[i] := false;
        i := i + 1;
      }
    }

    /** random_cells, with the random choices given as draws: one draw
        per requested cell, gathered in a set, so that repeats collapse.
        On an empty board there is nothing to choose from, and the first
        draw raises. */
    method RandomCells(cellNumber: int, draws: seq<Cell>) returns (r: Result<set<Cell>>)
      requires |draws| == if cellNumber <= 0 || size == 0 then 0 else cellNumber
      requires forall i :: 0 <= i < |draws| ==> InBounds(size, draws[i])
      ensures r.Err? <==> size == 0 && cellNumber > 0
      ensures r.Err? ==> r.error == EmptyChoice
      ensures r.Ok? ==> r.value == Drawn(draws)
      ensures r.Ok? ==> |r.value| <= |draws| && |r.value| <= if cellNumber < 0 then 0 else cellNumber
      ensures r.Ok? ==> forall c :: c in r.value ==> InBounds(size, c)
    {
      var cells := {};
      var i := 0;
      while i < cellNumber
        invariant 0 <= i <= |draws|
        invariant cells == Drawn(draws[..i])
        invariant |cells| <= i
      {
        if size == 0 {
          return Err(EmptyChoice);
        }
        cells := cells + {draws[i]};
        assert draws[..i + 1] == draws[..i] + [draws[i]];
        assert Drawn(draws[..i + 1]) == Drawn(draws[..i]) + {draws[i]} by {
          forall d | d in Drawn(draws[..i + 1]) ensures d in Drawn(draws[..i]) + {draws[i]} {
            var j :| 0 <= j < i + 1 && draws[..i + 1][j] == d;
            if j < i { assert draws[..i][j] == d; }
          }
        }
        i := i + 1;
      }
      assert draws[..i] == draws;
      r := Ok(cells);
    }

    /** set_random_board: every drawn cell becomes live, whatever order
        the set is walked in; every other cell keeps its state. On an
        empty board a positive count raises before anything is written.
        The count defaults to 10, as in the source. */
    method SetRandomBoard(draws: seq<Cell>, initialCellCount: int := 10) returns (o: Outcome)
      requires Valid()
      requires |draws| == if initialCellCount <= 0 || size == 0 then 0 else initialCellCount
      requires forall i :: 0 <= i < |draws| ==> InBounds(size, draws[i])
      modifies board
      ensures Valid()
      ensures o.Fail? <==> size == 0 && initialCellCount > 0
      ensures o.Fail? ==> o.error == EmptyChoice && board[..] == old(board[..])
      ensures o.Pass? ==> board[..] == Paint(old(board[..]), size, Drawn(draws))
      ensures tempBoard[..] == old(tempBoard[..])
    {
      var drawn := RandomCells(initialCellCount, draws);
      if drawn.Err? {
        return Fail(drawn.error);
      }
      var cells := drawn.value;
      var rest := cells;
      ghost var done: set<Cell> := {};
      PaintNothing(board[..], size);
      while rest != {}
        invariant Valid()
        invariant rest <= cells && done == cells - rest
        invariant board[..] == Paint(old(board[..]), size, done)
        invariant tempBoard[..] == old(tempBoard[..])
        decreases rest
      {
        var c :| c in rest;
        PaintAdd(old(board[..]), size, done, c);
        var written := SetCell(c, true);
        rest := rest - {c};
        done := done + {c};
      }
      o := Pass;
    }

    /** set_blinker: the three writes in order, stopping at the first
        that raises. */
    method SetBlinker(center: Cell) returns (o: Outcome)
      requires Valid()
      modifies board
      ensures Valid()
      ensures (board[..], o) == StoreEach(old(board[..]), size, BlinkerWrites(center), true)
      ensures tempBoard[..] == old(tempBoard[..])
    {
      var up, down := Cell(center.x, center.y - 1), Cell(center.x, center.y + 1);
      ghost var b0 := board[..];
      assert BlinkerWrites(center) == [center] + [up, down];
      assert [up, down] == [up] + [down];
      o := SetCell(Cell(center.x, center.y), true);
      if o.Fail? {
        assert ([center] + [up, down])[0] == center;
        return;
      }
      ghost var b1 := board[..];
      StoreEachHead(b0, size, center, [up, down], true, b1);
      o := SetCell(up, true);
      if o.Fail? {
        assert ([up] + [down])[0] == up;
        return;
      }
      ghost var b2 := board[..];
      StoreEachHead(b1, size, up, [down], true, b2);
      o := SetCell(down, true);
      assert [down][0] == down && [down][1..] == [];
    }

    /** board_step: clear the scratch grid, fill it from the current grid
        alone, then copy it back cell by cell. */
    method BoardStep()
      requires Valid()
      modifies board, tempBoard
      ensures Valid()
      ensures board[..] == NextGeneration(old(board[..]), size)
      ensures tempBoard[..] == board[..]
    {
      ZeroTempBoard();
      ghost var current := board[..];
      ghost var next := NextGeneration(current, size);
      var cellIdx := 0;
      while cellIdx < board.Length
        invariant Valid()
        invariant 0 <= cellIdx <= board.Length
        invariant board[..] == current
        invariant forall j :: 0 <= j < cellIdx ==> tempBoard[j] == next[j]
      {
        var py := cellIdx / size;
        var px := cellIdx - py * size;
        var cell := Cell(px, py);
        DecodeRoundTrip(size, cellIdx);
        assert cell == CellOf(size, cellIdx);
        var fate := ApplyRules(board[..], size, cell).value;
        assert fate == next[cellIdx] == NextAt(current, size, cellIdx);
        StoreInBounds(tempBoard[..], size, cell, fate);
        var o := SetTempCell(cell, fate);
        cellIdx := cellIdx + 1;
      }
      var i := 0;
      while i < tempBoard.Length
        invariant Valid()
        invariant 0 <= i <= tempBoard.Length
        invariant tempBoard[..] == next
        invariant forall j :: 0 <= j < i ==> board[j] == tempBoard[j]
      {
        board[i] := tempBoard[i];
        i := i + 1;
      }
    }

    /** The text draw_board builds for the current grid. */
    method BoardString() returns (s: string)
      requires Valid()
      ensures s == BoardText(board[..], size)
    {
      s := "";
      var i := 0;
      while i < board.Length
        invariant 0 <= i <= board.Length
        invariant s == Prefix(board[..], size, i)
      {
        if i % size == 0 {
          s := s + "\n";
        }
        if board[i] {
          s := s + [LiveCellSymbol, ' '];
        } else {
          s := s + [DeadCellSymbol, ' '];
        }
        i := i + 1;
      }
      PrefixAtRows(board[..], size, size);
    }

    /** run without the title, the screen control and the pause: periods
        steps, and after each the text that is drawn. */
    method Run(periods: int := 10) returns (frames: seq<string>)
      requires Valid()
      modifies board, tempBoard
      ensures Valid()
      ensures var k := if periods < 0 then 0 else periods;
              && board[..] == Evolve(old(board[..]), size, k)
              && |frames| == k
              && forall j :: 0 <= j < k ==> frames[j] == BoardText(Evolve(old(board[..]), size, j + 1), size)
    ensures periods > 0 ==> tempBoard[..] == board[..]
    ensures periods <= 0 ==> tempBoard[..] == old(tempBoard[..])
    {
      frames := [];
      var step := 1;
      while step <= periods
        invariant Valid()
        invariant 1 <= step && (periods >= 0 ==> step <= periods + 1) && (periods < 0 ==> step == 1)
        invariant board[..] == Evolve(old(board[..]), size, step - 1)
        invariant |frames| == step - 1
        invariant forall j :: 0 <= j < step - 1 ==> frames[j] == BoardText(Evolve(old(board[..]), size, j + 1), size)
        invariant step > 1 ==> tempBoard[..] == board[..]
        invariant step == 1 ==> tempBoard[..] == old(tempBoard[..])
      {
        EvolveStep(old(board[..]), size, step - 1);
        BoardStep();
        var text := BoardString();
        frames := frames + [text];
        step := step + 1;
      }
    }
  }
}
