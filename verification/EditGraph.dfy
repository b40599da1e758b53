/** The edit graph of a box of the two compared arrays, and the cost of its shortest paths.

    A path moves right (drop an element of A), down (take an element of B) or diagonally over
    a matching pair; the first two cost one, the diagonal is free. */
module EditGraph {

  /** The two arrays as the diff sees them: their sizes, and a callback that compares the
      element `i` of A with the element `j` of B. */
  datatype Arrays = Arrays(sizeA: nat, sizeB: nat, equal: (nat, nat) -> bool) {

    /** One call of the callback; it is only ever asked about elements that exist. */
    predicate Equal(i: nat, j: nat)
      requires i < sizeA && j < sizeB
    {
      equal(i, j)
    }
  }

  /** The elements `lowerA .. lowerA + width` of A against `lowerB .. lowerB + height` of B.
      A reversed box reads both ranges from their upper ends. */
  datatype Box = Box(data: Arrays, lowerA: nat, lowerB: nat, width: nat, height: nat, reversed: bool) {

    /** Whether the cell with upper left corner `(i, j)`, counted from this box's own start, is a
        diagonal of the graph. There are no diagonals outside the box. */
    predicate Match(i: int, j: int) {
      && 0 <= i < width
      && 0 <= j < height
      && if reversed then data.equal(lowerA + width - 1 - i, lowerB + height - 1 - j)
         else data.equal(lowerA + i, lowerB + j)
    }

    function Reverse(): Box {
      this.(reversed := !reversed)
    }
  }

  function Min(a: int, b: int): int {
    if a <= b then a else b
  }

  function Max(a: int, b: int): int {
    if a <= b then b else a
  }

  /** The least number of right and down moves on a path from the start of the box to `(x, y)`,
      which may lie beyond the box. */
  function Cost(b: Box, x: nat, y: nat): nat {
    if x == 0 then y
    else if y == 0 then x
    else if b.Match(x - 1, y - 1) then Cost(b, x - 1, y - 1)
    else 1 + Min(Cost(b, x - 1, y), Cost(b, x, y - 1))
  }

  /** The same from `(x, y)` to the far corner of the box. */
  function CostToEnd(b: Box, x: nat, y: nat): nat
    requires x <= b.width && y <= b.height
  {
    Cost(b.Reverse(), b.width - x, b.height - y)
  }

  /** The edit distance of the box. */
  function Distance(b: Box): nat {
    Cost(b, b.width, b.height)
  }

  // ----- How costs of neighbouring points compare -----

  lemma CostUnfolds(b: Box, x: nat, y: nat)
    ensures Cost(b, 0, y) == y && Cost(b, x, 0) == x
    ensures Cost(b, x + 1, y + 1)
         == if b.Match(x, y) then Cost(b, x, y) else 1 + Min(Cost(b, x, y + 1), Cost(b, x + 1, y))
  {
  }

  lemma {:induction false} Neighbours(b: Box, x: nat, y: nat)
    ensures Cost(b, x, y) - 1 <= Cost(b, x + 1, y) <= Cost(b, x, y) + 1
    ensures Cost(b, x, y) - 1 <= Cost(b, x, y + 1) <= Cost(b, x, y) + 1
    decreases x + y
  {
    hide Cost;
    CostUnfolds(b, x, y);
    CostUnfolds(b, x + 1, y);
    CostUnfolds(b, x, y + 1);
    if y > 0 {
      CostUnfolds(b, x, y - 1);
    }
    if x > 0 {
      CostUnfolds(b, x - 1, y);
    }
    if y > 0 {
      Neighbours(b, x, y - 1);
    }
    if x > 0 {
      Neighbours(b, x - 1, y);
    }
  }

  lemma DiagonalNeighbour(b: Box, x: nat, y: nat)
    ensures Cost(b, x, y) <= Cost(b, x + 1, y + 1)
  {
    Neighbours(b, x, y);
  }

  lemma {:induction false} CostBounds(b: Box, x: nat, y: nat)
    ensures x - y <= Cost(b, x, y) && y - x <= Cost(b, x, y) <= x + y
    decreases x + y
  {
    if x > 0 && y > 0 {
      if b.Match(x - 1, y - 1) {
        CostBounds(b, x - 1, y - 1);
      } else {
        CostBounds(b, x - 1, y);
        CostBounds(b, x, y - 1);
      }
    }
  }

  // ----- Costs are those of cheapest paths -----

  datatype Move = MoveRight | MoveDown | MoveDiagonal

  /** Whether the moves lead from the start of the box to `(x, y)`. A path may leave the box, but
      has no diagonals there. */
  predicate IsPath(b: Box, moves: seq<Move>, x: int, y: int) {
    if moves == [] then x == 0 && y == 0
    else
      var before := moves[..|moves| - 1];
      match moves[|moves| - 1]
      case MoveRight => IsPath(b, before, x - 1, y)
      case MoveDown => IsPath(b, before, x, y - 1)
      case MoveDiagonal => b.Match(x - 1, y - 1) && IsPath(b, before, x - 1, y - 1)
  }

  function PathCost(moves: seq<Move>): nat {
    if moves == [] then 0
    else PathCost(moves[..|moves| - 1]) + if moves[|moves| - 1] == MoveDiagonal then 0 else 1
  }

  lemma {:induction false} NoPathIsCheaper(b: Box, moves: seq<Move>, x: int, y: int)
    requires IsPath(b, moves, x, y)
    ensures 0 <= x && 0 <= y && Cost(b, x, y) <= PathCost(moves)
  {
    if moves != [] {
      var before := moves[..|moves| - 1];
      match moves[|moves| - 1]
      case MoveRight =>
        NoPathIsCheaper(b, before, x - 1, y);
        Neighbours(b, x - 1, y);
      case MoveDown =>
        NoPathIsCheaper(b, before, x, y - 1);
        Neighbours(b, x, y - 1);
      case MoveDiagonal =>
        NoPathIsCheaper(b, before, x - 1, y - 1);
    }
  }

  lemma {:induction false} CheapestPath(b: Box, x: nat, y: nat) returns (moves: seq<Move>)
    ensures IsPath(b, moves, x, y) && PathCost(moves) == Cost(b, x, y)
    decreases x + y
  {
    if x == 0 && y == 0 {
      return [];
    }
    var before, last;
    if x > 0 && y > 0 && b.Match(x - 1, y - 1) {
      before := CheapestPath(b, x - 1, y - 1);
      last := MoveDiagonal;
    } else if y == 0 || (x > 0 && Cost(b, x - 1, y) <= Cost(b, x, y - 1)) {
      before := CheapestPath(b, x - 1, y);
      last := MoveRight;
    } else {
      before := CheapestPath(b, x, y - 1);
      last := MoveDown;
    }
    moves := before + [last];
    assert moves[..|moves| - 1] == before;
  }

  /** The length of a longest common subsequence of the first `x` elements of A and the first `y`
      elements of B, by the textbook recursion. */
  function LcsLength(b: Box, x: nat, y: nat): nat {
    if x == 0 || y == 0 then 0
    else if b.Match(x - 1, y - 1) then 1 + LcsLength(b, x - 1, y - 1)
    else Max(LcsLength(b, x - 1, y), LcsLength(b, x, y - 1))
  }

  /** Every element that is not on a longest common subsequence costs one. */
  lemma {:induction false} CostIsWhatLcsLeaves(b: Box, x: nat, y: nat)
    ensures Cost(b, x, y) == x + y - 2 * LcsLength(b, x, y)
    decreases x + y
  {
    if x > 0 && y > 0 {
      if b.Match(x - 1, y - 1) {
        CostIsWhatLcsLeaves(b, x - 1, y - 1);
      } else {
        CostIsWhatLcsLeaves(b, x - 1, y);
        CostIsWhatLcsLeaves(b, x, y - 1);
      }
    }
  }

  lemma {:induction false} CostGrowsAlongDiagonal(b: Box, x: nat, y: nat, steps: nat)
    ensures Cost(b, x, y) <= Cost(b, x + steps, y + steps)
    decreases steps
  {
    if steps > 0 {
      CostGrowsAlongDiagonal(b, x, y, steps - 1);
      DiagonalNeighbour(b, x + steps - 1, y + steps - 1);
    }
  }

  lemma {:induction false} CostRightOfBox(b: Box, x: nat, y: nat)
    requires b.width <= x
    ensures Cost(b, x, y) == Cost(b, b.width, y) + (x - b.width)
    decreases x + y
  {
    if x > b.width {
      CostRightOfBox(b, x - 1, y);
      if y > 0 {
        CostRightOfBox(b, x, y - 1);
        Neighbours(b, b.width, y - 1);
      }
    }
  }

  lemma {:induction false} CostBelowBox(b: Box, x: nat, y: nat)
    requires b.height <= y
    ensures Cost(b, x, y) == Cost(b, x, b.height) + (y - b.height)
    decreases x + y
  {
    if y > b.height {
      CostBelowBox(b, x, y - 1);
      if x > 0 {
        CostBelowBox(b, x - 1, y);
        Neighbours(b, x - 1, b.height);
      }
    }
  }

  // ----- Splitting a box at a point -----

  /** The cost to the far corner, peeled from the start of a path instead of its end. */
  lemma CostToEndUnfolds(b: Box, x: nat, y: nat)
    requires x <= b.width && y <= b.height
    ensures x == b.width ==> CostToEnd(b, x, y) == b.height - y
    ensures y == b.height ==> CostToEnd(b, x, y) == b.width - x
    ensures x < b.width && y < b.height ==>
              CostToEnd(b, x, y) ==
              if b.Match(x, y) then CostToEnd(b, x + 1, y + 1)
              else 1 + Min(CostToEnd(b, x + 1, y), CostToEnd(b, x, y + 1))
  {
    if x < b.width && y < b.height {
      assert b.Reverse().Match(b.width - x - 1, b.height - y - 1) == b.Match(x, y);
    }
  }

  /** No route through a point is cheaper than the distance of the box. */
  lemma {:induction false} NoShortcut(b: Box, x: nat, y: nat)
    requires x <= b.width && y <= b.height
    ensures Distance(b) <= Cost(b, x, y) + CostToEnd(b, x, y)
    decreases b.width - x + b.height - y
  {
    CostToEndUnfolds(b, x, y);
    if x == b.width && y == b.height {
    } else if x == b.width {
      CostToEndUnfolds(b, x, y + 1);
      NoShortcut(b, x, y + 1);
      Neighbours(b, x, y);
    } else if y == b.height {
      CostToEndUnfolds(b, x + 1, y);
      NoShortcut(b, x + 1, y);
      Neighbours(b, x, y);
    } else if b.Match(x, y) {
      NoShortcut(b, x + 1, y + 1);
    } else {
      NoShortcut(b, x + 1, y);
      NoShortcut(b, x, y + 1);
      Neighbours(b, x, y);
    }
  }

  /** Reading both arrays backwards does not change the distance. */
  lemma ReversedDistance(b: Box)
    ensures Distance(b.Reverse()) == Distance(b)
  {
    NoShortcut(b, 0, 0);
    NoShortcut(b.Reverse(), 0, 0);
    assert b.Reverse().Reverse() == b;
  }

  /** A shortest route visits every cost from 0 to the distance. */
  lemma {:induction false} PointAtCost(b: Box, x: nat, y: nat, c: nat) returns (px: nat, py: nat)
    requires x <= b.width && y <= b.height
    requires c <= Cost(b, x, y)
    requires Cost(b, x, y) + CostToEnd(b, x, y) == Distance(b)
    ensures px <= x && py <= y
    ensures Cost(b, px, py) == c
    ensures c + CostToEnd(b, px, py) == Distance(b)
    decreases x + y
  {
    if Cost(b, x, y) == c {
      return x, y;
    }
    px, py := Predecessor(b, x, y);
    px, py := PointAtCost(b, px, py, c);
  }

  /** The last move of a shortest route. */
  lemma Predecessor(b: Box, x: nat, y: nat) returns (px: nat, py: nat)
    requires x <= b.width && y <= b.height && Cost(b, x, y) > 0
    requires Cost(b, x, y) + CostToEnd(b, x, y) == Distance(b)
    ensures px <= x && py <= y && px + py < x + y
    ensures Cost(b, x, y) - 1 <= Cost(b, px, py) <= Cost(b, x, y)
    ensures Cost(b, px, py) + CostToEnd(b, px, py) == Distance(b)
  {
    if x > 0 && y > 0 && b.Match(x - 1, y - 1) {
      px, py := x - 1, y - 1;
    } else if y == 0 || (x > 0 && Cost(b, x - 1, y) <= Cost(b, x, y - 1)) {
      px, py := x - 1, y;
    } else {
      px, py := x, y - 1;
    }
    StepBack(b, px, py, x, y);
    NoShortcut(b, px, py);
  }

  lemma StepBack(b: Box, px: nat, py: nat, x: nat, y: nat)
    requires x <= b.width && y <= b.height
    requires (px == x - 1 && py == y - 1 && b.Match(px, py)) || (px == x - 1 && py == y) || (px == x && py == y - 1)
    ensures CostToEnd(b, px, py) <= CostToEnd(b, x, y) + if px < x && py < y then 0 else 1
  {
    CostToEndUnfolds(b, px, py);
    hide Cost;
    Neighbours(b.Reverse(), b.width - x, b.height - y);
  }
}
