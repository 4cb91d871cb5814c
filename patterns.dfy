/** What the step does to the two seeds the program knows by name, the
    blinker and the block, and how the row-0 filter breaks the blinker
    when it touches the top row. */
module Patterns {
  import opened Grid
  import opened Rules

  /** One for a candidate that passes the filter and is in s. */
  function Indicator(n: nat, s: set<Cell>, d: Cell): nat {
    if Counted(n, d) && d in s then 1 else 0
  }

  /** The neighbour count on a board whose live cells are exactly s, in
      terms of s alone. */
  function CountIn(n: nat, s: set<Cell>, c: Cell): nat {
    Indicator(n, s, Cell(c.x - 1, c.y - 1)) + Indicator(n, s, Cell(c.x, c.y - 1)) +
    Indicator(n, s, Cell(c.x + 1, c.y - 1)) + Indicator(n, s, Cell(c.x - 1, c.y)) +
    Indicator(n, s, Cell(c.x + 1, c.y)) + Indicator(n, s, Cell(c.x - 1, c.y + 1)) +
    Indicator(n, s, Cell(c.x, c.y + 1)) + Indicator(n, s, Cell(c.x + 1, c.y + 1))
  }

  lemma PatternContribution(n: nat, s: set<Cell>, d: Cell)
    ensures Contribution(Pattern(n, s), n, d) == Indicator(n, s, d)
  {
    if Counted(n, d) {
      PatternAt(n, s, d);
    }
  }

  lemma PatternNeighbours(n: nat, s: set<Cell>, c: Cell)
    ensures NumberOfNeighbours(Pattern(n, s), n, c) == CountIn(n, s, c)
  {
    NeighboursExpanded(Pattern(n, s), n, c);
    PatternContribution(n, s, Cell(c.x - 1, c.y - 1));
    PatternContribution(n, s, Cell(c.x, c.y - 1));
    PatternContribution(n, s, Cell(c.x + 1, c.y - 1));
    PatternContribution(n, s, Cell(c.x - 1, c.y));
    PatternContribution(n, s, Cell(c.x + 1, c.y));
    PatternContribution(n, s, Cell(c.x - 1, c.y + 1));
    PatternContribution(n, s, Cell(c.x, c.y + 1));
    PatternContribution(n, s, Cell(c.x + 1, c.y + 1));
  }

  /** A step takes the board whose live cells are s to the one whose
      live cells are t whenever the rule, applied to the counts that s
      gives, agrees with t at every in-range cell. */
  lemma PatternStep(n: nat, s: set<Cell>, t: set<Cell>)
    requires forall d :: InBounds(n, d) ==> (Survives(d in s, CountIn(n, s, d)) <==> d in t)
    ensures NextGeneration(Pattern(n, s), n) == Pattern(n, t)
  {
    forall d | InBounds(n, d)
      ensures Lookup(NextGeneration(Pattern(n, s), n), n, d) == Lookup(Pattern(n, t), n, d)
    {
      NextGenerationAt(Pattern(n, s), n, d);
      PatternAt(n, s, d);
      PatternAt(n, t, d);
      PatternNeighbours(n, s, d);
    }
    Extensional(NextGeneration(Pattern(n, s), n), Pattern(n, t), n);
  }

  /** The three live cells of a vertical blinker, as set_blinker places them. */
  function Vertical(c: Cell): set<Cell> {
    {Cell(c.x, c.y - 1), c, Cell(c.x, c.y + 1)}
  }

  /** The other phase of the blinker. */
  function Horizontal(c: Cell): set<Cell> {
    {Cell(c.x - 1, c.y), c, Cell(c.x + 1, c.y)}
  }

  lemma VerticalToHorizontal(n: nat, c: Cell)
    requires 1 <= c.x <= n - 2 && 2 <= c.y <= n - 2
    ensures NextGeneration(Pattern(n, Vertical(c)), n) == Pattern(n, Horizontal(c))
  {
    forall d | InBounds(n, d)
      ensures Survives(d in Vertical(c), CountIn(n, Vertical(c), d)) <==> d in Horizontal(c)
    {
    }
    PatternStep(n, Vertical(c), Horizontal(c));
  }

  lemma HorizontalToVertical(n: nat, c: Cell)
    requires 1 <= c.x <= n - 2 && 1 <= c.y <= n - 2
    ensures NextGeneration(Pattern(n, Horizontal(c)), n) == Pattern(n, Vertical(c))
  {
    forall d | InBounds(n, d)
      ensures Survives(d in Horizontal(c), CountIn(n, Horizontal(c), d)) <==> d in Vertical(c)
    {
    }
    PatternStep(n, Horizontal(c), Vertical(c));
  }

  /** A vertical blinker centred in columns 1 to n-2 and rows 2 to n-2
      (so that its top cell is not on row 0) has period two: it returns after every second step and shows the
      horizontal phase after every odd one. */
  lemma BlinkerOscillates(n: nat, c: Cell, k: nat)
    requires 1 <= c.x <= n - 2 && 2 <= c.y <= n - 2
    ensures Evolve(Pattern(n, Vertical(c)), n, 2 * k) == Pattern(n, Vertical(c))
    ensures Evolve(Pattern(n, Vertical(c)), n, 2 * k + 1) == Pattern(n, Horizontal(c))
  {
    VerticalToHorizontal(n, c);
    HorizontalToVertical(n, c);
    PeriodTwoForever(Pattern(n, Vertical(c)), n, k);
  }

  /** With its top cell on row 0 the blinker does not oscillate: that cell
      is never counted, so the centre sees one neighbour and dies. */
  lemma BlinkerOnRowZeroDecays(n: nat, c: Cell)
    requires 1 <= c.x <= n - 2 && c.y == 1 && n >= 3
    ensures Lookup(NextGeneration(Pattern(n, Vertical(c)), n), n, c) == Ok(false)
    ensures NextGeneration(Pattern(n, Vertical(c)), n) != Pattern(n, Horizontal(c))
  {
    NextGenerationAt(Pattern(n, Vertical(c)), n, c);
    PatternAt(n, Vertical(c), c);
    PatternAt(n, Horizontal(c), c);
    PatternNeighbours(n, Vertical(c), c);
  }

  /** The 2 by 2 block whose top-left cell is c. */
  function Block(c: Cell): set<Cell> {
    {c, Cell(c.x + 1, c.y), Cell(c.x, c.y + 1), Cell(c.x + 1, c.y + 1)}
  }

  /** A block off row 0 is a still life: it is unchanged after any number
      of steps. */
  lemma BlockIsStill(n: nat, c: Cell, k: nat)
    requires 0 <= c.x <= n - 2 && 1 <= c.y <= n - 2
    ensures Evolve(Pattern(n, Block(c)), n, k) == Pattern(n, Block(c))
  {
    forall d | InBounds(n, d)
      ensures Survives(d in Block(c), CountIn(n, Block(c), d)) <==> d in Block(c)
    {
    }
    PatternStep(n, Block(c), Block(c));
    FixedPointForever(Pattern(n, Block(c)), n, k);
  }

  /** A single live cell dies, whatever its place on the board. */
  lemma LoneCellDies(n: nat, c: Cell)
    requires InBounds(n, c)
    ensures NextGeneration(Pattern(n, {c}), n) == Pattern(n, {})
  {
    forall d | InBounds(n, d)
      ensures Survives(d in {c}, CountIn(n, {c}, d)) <==> d in {}
    {
    }
    PatternStep(n, {c}, {});
  }
}
