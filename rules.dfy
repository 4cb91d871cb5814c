/** The neighbour count and the B3/S23 transition rule, as functions of
    the current board's contents, and the next generation they define. */
module Rules {
  import opened Grid

  /** The eight cells around a centre, in the order the source lists
      them: the row above left to right, the two beside, the row below. */
  function Neighbourhood(c: Cell): (cs: seq<Cell>)
    ensures |cs| == 8
    ensures c !in cs
  {
    [Cell(c.x - 1, c.y - 1), Cell(c.x, c.y - 1), Cell(c.x + 1, c.y - 1),
     Cell(c.x - 1, c.y),                         Cell(c.x + 1, c.y),
     Cell(c.x - 1, c.y + 1), Cell(c.x, c.y + 1), Cell(c.x + 1, c.y + 1)]
  }

  /** The filter applied before a neighbour is read. Columns are tested
      with 0 <= x, rows with 0 < y, so row 0 is never admitted. */
  predicate Counted(n: nat, d: Cell) {
    0 <= d.x < n && 0 < d.y < n
  }

  /** What one candidate adds to the sum: its state when the filter
      admits it, nothing otherwise. An admitted candidate is always in
      range, so the read never raises. */
  function Contribution(b: seq<bool>, n: nat, d: Cell): (k: nat)
    requires |b| == n * n
    ensures k <= 1
    ensures k == 1 <==> Counted(n, d) && Lookup(b, n, d) == Ok(true)
  {
    if Counted(n, d) then (if Lookup(b, n, d).value then 1 else 0) else 0
  }

  /** The sum over a list of candidates. */
  function LiveSum(b: seq<bool>, n: nat, cs: seq<Cell>): (k: nat)
    requires |b| == n * n
    ensures k <= |cs|
  {
    if cs == [] then 0 else Contribution(b, n, cs[0]) + LiveSum(b, n, cs[1..])
  }

  /** number_of_neighbours: how many admitted candidates are live. */
  function NumberOfNeighbours(b: seq<bool>, n: nat, c: Cell): (k: nat)
    requires |b| == n * n
    ensures k <= 8
  {
    LiveSum(b, n, Neighbourhood(c))
  }

  /** The count, written out candidate by candidate. */
  lemma {:induction false} NeighboursExpanded(b: seq<bool>, n: nat, c: Cell)
    requires |b| == n * n
    ensures NumberOfNeighbours(b, n, c) ==
      Contribution(b, n, Cell(c.x - 1, c.y - 1)) + Contribution(b, n, Cell(c.x, c.y - 1)) +
      Contribution(b, n, Cell(c.x + 1, c.y - 1)) + Contribution(b, n, Cell(c.x - 1, c.y)) +
      Contribution(b, n, Cell(c.x + 1, c.y)) + Contribution(b, n, Cell(c.x - 1, c.y + 1)) +
      Contribution(b, n, Cell(c.x, c.y + 1)) + Contribution(b, n, Cell(c.x + 1, c.y + 1))
  {
    var cs := Neighbourhood(c);
    assert LiveSum(b, n, cs) == Contribution(b, n, cs[0]) + LiveSum(b, n, cs[1..]);
    assert LiveSum(b, n, cs[1..]) == Contribution(b, n, cs[1]) + LiveSum(b, n, cs[2..]);
    assert LiveSum(b, n, cs[2..]) == Contribution(b, n, cs[2]) + LiveSum(b, n, cs[3..]);
    assert LiveSum(b, n, cs[3..]) == Contribution(b, n, cs[3]) + LiveSum(b, n, cs[4..]);
    assert LiveSum(b, n, cs[4..]) == Contribution(b, n, cs[4]) + LiveSum(b, n, cs[5..]);
    assert LiveSum(b, n, cs[5..]) == Contribution(b, n, cs[5]) + LiveSum(b, n, cs[6..]);
    assert LiveSum(b, n, cs[6..]) == Contribution(b, n, cs[6]) + LiveSum(b, n, cs[7..]);
    assert LiveSum(b, n, cs[7..]) == Contribution(b, n, cs[7]) + LiveSum(b, n, cs[8..]);
    assert cs[8..] == [];
  }

  /** The sum depends only on the states of the candidates the filter
      admits. */
  lemma {:induction false} LiveSumLocal(b1: seq<bool>, b2: seq<bool>, n: nat, cs: seq<Cell>)
    requires |b1| == n * n && |b2| == n * n
    requires forall d :: d in cs && Counted(n, d) ==> Lookup(b1, n, d) == Lookup(b2, n, d)
    ensures LiveSum(b1, n, cs) == LiveSum(b2, n, cs)
  {
    if cs != [] {
      assert cs[0] in cs;
      LiveSumLocal(b1, b2, n, cs[1..]);
    }
  }

  /** The neighbour count of a cell depends only on the admitted cells
      around it. */
  lemma NeighboursLocal(b1: seq<bool>, b2: seq<bool>, n: nat, c: Cell)
    requires |b1| == n * n && |b2| == n * n
    requires forall d :: d in Neighbourhood(c) && Counted(n, d) ==> Lookup(b1, n, d) == Lookup(b2, n, d)
    ensures NumberOfNeighbours(b1, n, c) == NumberOfNeighbours(b2, n, c)
  {
    LiveSumLocal(b1, b2, n, Neighbourhood(c));
  }

  /** Row 0 is invisible to the count: two boards that differ only in
      their first row (the first n entries) give every cell the same
      number of neighbours. */
  lemma RowZeroIgnored(b1: seq<bool>, b2: seq<bool>, n: nat, c: Cell)
    requires |b1| == n * n && |b2| == n * n
    requires b1[n..] == b2[n..]
    ensures NumberOfNeighbours(b1, n, c) == NumberOfNeighbours(b2, n, c)
  {
    forall d | d in Neighbourhood(c) && Counted(n, d)
      ensures Lookup(b1, n, d) == Lookup(b2, n, d)
    {
      MulLeq(1, d.y, n);
      IndexInBounds(n, d);
      assert b1[Index(n, d)] == b1[n..][Index(n, d) - n];
    }
    NeighboursLocal(b1, b2, n, c);
  }

  /** At the corner (0, 0) only two of the eight candidates can pass
      the filter, (0, 1) and (1, 1): the count there is at most 2, where
      clipping at the edges alone would allow 3. */
  lemma CornerCount(b: seq<bool>, n: nat)
    requires |b| == n * n
    ensures NumberOfNeighbours(b, n, Cell(0, 0)) <= 2
    ensures NumberOfNeighbours(b, n, Cell(0, 0)) ==
      Contribution(b, n, Cell(0, 1)) + Contribution(b, n, Cell(1, 1))
  {
    NeighboursExpanded(b, n, Cell(0, 0));
  }

  /** apply_rules_to_cell's branches on the current state and the count. */
  function Survives(alive: bool, nn: int): (r: bool)
    ensures r <==> (alive && 2 <= nn <= 3) || (!alive && nn == 3)
  {
    if alive then
      if nn < 2 then false
      else if nn <= 3 then true
      else false
    else
      if nn == 3 then true
      else false
  }

  /** apply_rules_to_cell: the count never raises; reading the centre
      itself does when it is out of range. */
  function ApplyRules(b: seq<bool>, n: nat, c: Cell): (r: Result<bool>)
    requires |b| == n * n
    ensures r.Err? <==> !InBounds(n, c)
    ensures r.Err? ==> r.error == CellOutOfRange(c)
    ensures r.Ok? ==> r.value == Survives(Lookup(b, n, c).value, NumberOfNeighbours(b, n, c))
  {
    var nn := NumberOfNeighbours(b, n, c);
    match Lookup(b, n, c)
    case Err(e) => Err(e)
    case Ok(alive) => Ok(Survives(alive, nn))
  }

  /** The next generation: every cell's new state is the rule applied to
      the current contents at that cell, and to nothing else. */
  function NextGeneration(b: seq<bool>, n: nat): (r: seq<bool>)
    requires |b| == n * n
    ensures |r| == |b|
  {
    seq(|b|, i requires 0 <= i < |b| => NextAt(b, n, i))
  }

  /** The new state of the cell at index i. */
  function NextAt(b: seq<bool>, n: nat, i: nat): bool
    requires |b| == n * n && i < |b|
  {
    DecodeRoundTrip(n, i);
    ApplyRules(b, n, CellOf(n, i)).value
  }

  /** Each in-range cell of the next generation follows the rule on its
      own state and its neighbour count in the current generation. */
  lemma NextGenerationAt(b: seq<bool>, n: nat, c: Cell)
    requires |b| == n * n
    requires InBounds(n, c)
    ensures Lookup(NextGeneration(b, n), n, c) ==
      Ok(Survives(Lookup(b, n, c).value, NumberOfNeighbours(b, n, c)))
  {
    EncodeRoundTrip(n, c);
    var i := Index(n, c);
    assert NextGeneration(b, n)[i] == NextAt(b, n, i);
  }

  /** The four rules of the game, one step on: underpopulation,
      survival, overpopulation, birth. */
  lemma StepRules(b: seq<bool>, n: nat, c: Cell)
    requires |b| == n * n
    requires InBounds(n, c)
    ensures var nn := NumberOfNeighbours(b, n, c);
            var was := Lookup(b, n, c).value;
            var now := Lookup(NextGeneration(b, n), n, c).value;
            && (was && nn < 2 ==> !now)
            && (was && 2 <= nn <= 3 ==> now)
            && (was && nn > 3 ==> !now)
            && (!was ==> (now <==> nn == 3))
  {
    NextGenerationAt(b, n, c);
  }

  /** k generations on. */
  function Evolve(b: seq<bool>, n: nat, k: nat): (r: seq<bool>)
    requires |b| == n * n
    ensures |r| == |b|
    decreases k
  {
    if k == 0 then b else Evolve(NextGeneration(b, n), n, k - 1)
  }

  /** One more generation is one more step at the end. */
  lemma {:induction false} EvolveStep(b: seq<bool>, n: nat, k: nat)
    requires |b| == n * n
    ensures Evolve(b, n, k + 1) == NextGeneration(Evolve(b, n, k), n)
    decreases k
  {
    if k > 0 {
      EvolveStep(NextGeneration(b, n), n, k - 1);
    }
  }

  /** A board that the step leaves alone stays as it is for good. */
  lemma {:induction false} FixedPointForever(b: seq<bool>, n: nat, k: nat)
    requires |b| == n * n
    requires NextGeneration(b, n) == b
    ensures Evolve(b, n, k) == b
  {
    if k > 0 {
      FixedPointForever(b, n, k - 1);
    }
  }

  /** A board that returns after two steps alternates for good. */
  lemma {:induction false} PeriodTwoForever(b: seq<bool>, n: nat, k: nat)
    requires |b| == n * n
    requires NextGeneration(NextGeneration(b, n), n) == b
    ensures Evolve(b, n, 2 * k) == b
    ensures Evolve(b, n, 2 * k + 1) == NextGeneration(b, n)
  {
    if k > 0 {
      PeriodTwoForever(b, n, k - 1);
      assert Evolve(b, n, 2 * k) == Evolve(NextGeneration(b, n), n, 2 * k - 1);
      assert Evolve(NextGeneration(b, n), n, 2 * k - 1)
          == Evolve(NextGeneration(NextGeneration(b, n), n), n, 2 * (k - 1));
    }
  }
}
