/** Furthest-reaching points: what one cell of the search vectors stands for, how a row of cells
    follows from the row before it, and when a forward and a reverse row meet. */
module Frontier {
  import opened EditGraph

  /** On the diagonal `k` (the points `(x, x - k)`), `x` is the furthest point that `d` moves reach. */
  predicate Furthest(b: Box, d: int, k: int, x: int) {
    && 0 <= x
    && 0 <= x - k
    && Cost(b, x, x - k) <= d < Cost(b, x + 1, x + 1 - k)
  }

  /** The points of a diagonal that `d` moves reach are exactly those up to the furthest one. */
  lemma FurthestIsThreshold(b: Box, d: int, k: int, x: int, other: nat)
    requires Furthest(b, d, k, x) && 0 <= other - k
    ensures Cost(b, other, other - k) <= d <==> other <= x
  {
    if other <= x {
      CostGrowsAlongDiagonal(b, other, other - k, x - other);
    } else {
      CostGrowsAlongDiagonal(b, x + 1, x + 1 - k, other - x - 1);
    }
  }

  /** `d` moves end on a diagonal at most `d` away from the first one. */
  predicate OnRow(d: int, k: int) {
    -d <= k <= d && (k + d) % 2 == 0
  }

  /** What the cells next to diagonal `k` hold when the search comes to it in round `d`: the
      furthest points of the round before, or the initial cell in round 0. */
  predicate Feeds(b: Box, d: int, k: int, left: int, right: int) {
    && OnRow(d, k)
    && (k > -d ==> Furthest(b, d - 1, k - 1, left))
    && (if d == 0 then right == 0 else k < d ==> Furthest(b, d - 1, k + 1, right))
  }

  /** The better of a step right from diagonal `k - 1` and a step down from diagonal `k + 1`. */
  function Start(d: int, k: int, left: int, right: int): int {
    if k == -d then right
    else if k < d && right >= left + 1 then right
    else left + 1
  }

  /** `x` is on the snake that leads from the start point in round `d`. */
  predicate OnSnake(b: Box, d: int, k: int, left: int, right: int, x: int) {
    && Start(d, k, left, right) <= x
    && 0 <= x && 0 <= x - k
    && Cost(b, x, x - k) <= d
  }

  lemma SnakeStarts(b: Box, d: int, k: int, left: int, right: int)
    requires Feeds(b, d, k, left, right)
    ensures OnSnake(b, d, k, left, right, Start(d, k, left, right))
  {
    if d > 0 {
      if k > -d {
        StepRight(b, d, k, left);
      }
      if k < d {
        StepDown(b, d, k, right);
      }
    }
  }

  lemma StepRight(b: Box, d: int, k: int, left: int)
    requires Furthest(b, d - 1, k - 1, left)
    ensures 0 <= left + 1 - k && Cost(b, left + 1, left + 1 - k) <= d
  {
    Neighbours(b, left, left + 1 - k);
  }

  lemma StepDown(b: Box, d: int, k: int, right: int)
    requires Furthest(b, d - 1, k + 1, right)
    ensures 0 <= right - k && Cost(b, right, right - k) <= d
  {
    Neighbours(b, right, right - k - 1);
  }

  lemma SnakeGoesOn(b: Box, d: int, k: int, left: int, right: int, x: int)
    requires OnSnake(b, d, k, left, right, x) && b.Match(x, x - k)
    ensures OnSnake(b, d, k, left, right, x + 1)
  {
  }

  /** Without a match, a point is reached from one of its two neighbours, which were reached in the
      round before. */
  lemma NotFurther(b: Box, d: int, k: int, left: int, right: int, x: nat)
    requires Feeds(b, d, k, left, right) && Start(d, k, left, right) <= x && 0 <= x - k
    ensures d <= Cost(b, x, x - k + 1) && d <= Cost(b, x + 1, x - k)
  {
    hide Cost;
    var y := x - k;
    if k == -d {
      CostBounds(b, x, y + 1);
    } else {
      FurthestIsThreshold(b, d - 1, k - 1, left, x);
    }
    if k == d {
      CostBounds(b, x + 1, y);
    } else {
      FurthestIsThreshold(b, d - 1, k + 1, right, x + 1);
    }
  }

  /** Where the snake can go no further is the furthest point. */
  lemma SnakeEnds(b: Box, d: int, k: int, left: int, right: int, x: int)
    requires Feeds(b, d, k, left, right)
    requires OnSnake(b, d, k, left, right, x) && !b.Match(x, x - k)
    ensures Furthest(b, d, k, x)
  {
    NotFurther(b, d, k, left, right, x);
    hide Feeds;
    hide Start;
  }

  lemma CostIsOnRow(b: Box, x: nat, y: nat)
    ensures OnRow(Cost(b, x, y), x - y)
  {
    CostBounds(b, x, y);
    CostIsWhatLcsLeaves(b, x, y);
    assert x - y + Cost(b, x, y) == 2 * (x - LcsLength(b, x, y));
  }

  /** All points of a snake take exactly the moves of the round, so no two rounds look at the same. */
  lemma SnakeIsExact(b: Box, d: int, k: int, left: int, right: int, x: int)
    requires Feeds(b, d, k, left, right) && OnSnake(b, d, k, left, right, x)
    ensures Cost(b, x, x - k) == d
  {
    hide Cost;
    NotFurther(b, d, k, left, right, x);
    assert OnRow(d, k);
    hide Feeds;
    hide Start;
    Neighbours(b, x, x - k);
    CostIsOnRow(b, x, x - k);
  }

  // ----- Where the two searches meet -----

  /** `(x, y)` lies in the box, `d` moves from its start and `e` moves from its end. */
  predicate Meets(b: Box, d: int, e: int, x: int, y: int) {
    && 0 <= x <= b.width
    && 0 <= y <= b.height
    && Cost(b, x, y) <= d
    && CostToEnd(b, x, y) <= e
  }

  /** While the distance has not been undercut, a forward point on a diagonal that the reverse
      search has reached cannot have left the box. */
  lemma StaysInBox(b: Box, d: int, e: int, k: int, x: int)
    requires Furthest(b, d, k, x)
    requires d + e <= Distance(b)
    requires -e <= b.width - b.height - k <= e
    ensures x <= b.width && x - k <= b.height
  {
    var y := x - k;
    CostBounds(b, x, y);
    if x > b.width && y > b.height {
      CostRightOfBox(b, x, y);
      CostBelowBox(b, b.width, y);
    } else if x > b.width {
      CostRightOfBox(b, x, y);
      NoShortcut(b, b.width, y);
      CostToEndUnfolds(b, b.width, y);
    } else if y > b.height {
      CostBelowBox(b, x, y);
      NoShortcut(b, x, b.height);
      CostToEndUnfolds(b, x, b.height);
    }
  }

  /** The reverse search runs on the reversed box; its point `u` on diagonal `k` is the point
      `width - u` on the diagonal `width - height - k` there. */
  predicate FurthestBack(b: Box, e: int, k: int, u: int) {
    Furthest(b.Reverse(), e, b.width - b.height - k, b.width - u)
  }

  /** The test for an overlap on one diagonal finds a meeting point exactly if there is one, and
      then the forward point is the last of them. */
  lemma OverlapIsMeeting(b: Box, d: int, e: int, k: int, x: int, u: int, mx: int)
    requires Furthest(b, d, k, x) && FurthestBack(b, e, k, u)
    requires d + e <= Distance(b)
    requires -e <= b.width - b.height - k <= e
    ensures u <= x ==> Meets(b, d, e, x, x - k)
    ensures Meets(b, d, e, mx, mx - k) ==> u <= mx <= x
  {
    StaysInBox(b, d, e, k, x);
    ReachedBackIsThreshold(b, e, k, u, x);
    if Meets(b, d, e, mx, mx - k) {
      FurthestIsThreshold(b, d, k, x, mx);
      ReachedBackIsThreshold(b, e, k, u, mx);
    }
  }

  lemma ReachedBackIsThreshold(b: Box, e: int, k: int, u: int, x: int)
    requires FurthestBack(b, e, k, u)
    requires 0 <= x <= b.width && 0 <= x - k <= b.height
    ensures CostToEnd(b, x, x - k) <= e <==> u <= x
  {
    FurthestIsThreshold(b.Reverse(), e, b.width - b.height - k, b.width - u, b.width - x);
  }

  /** If two searches can meet at all, they do so on diagonals that both have reached. */
  lemma MeetingPointExists(b: Box, d: nat, e: nat) returns (x: nat, y: nat)
    requires d + e == Distance(b)
    ensures Meets(b, d, e, x, y)
    ensures OnRow(d, x - y) && OnRow(e, b.width - b.height - (x - y))
  {
    x, y := PointAtCost(b, b.width, b.height, d);
    CostIsOnRow(b, x, y);
    CostIsOnRow(b.Reverse(), b.width - x, b.height - y);
  }

  /** Points that meet within the distance of the box lie on a shortest path. */
  lemma MeetingIsExact(b: Box, d: int, e: int, x: int, y: int)
    requires Meets(b, d, e, x, y) && d + e <= Distance(b)
    ensures Cost(b, x, y) == d && CostToEnd(b, x, y) == e && d + e == Distance(b)
  {
    NoShortcut(b, x, y);
  }

  /** Distances have the parity of the difference of the sizes. */
  lemma DistanceParity(b: Box)
    ensures (Distance(b) - (b.width - b.height)) % 2 == 0
    ensures Distance(b) <= b.width + b.height
  {
    CostBounds(b, b.width, b.height);
    CostIsWhatLcsLeaves(b, b.width, b.height);
    assert Distance(b) - (b.width - b.height) == 2 * (b.height - LcsLength(b, b.width, b.height));
  }

  // ----- The middle point -----

  /** How a shortest path is halved: the forward half gets the odd move. */
  function ForwardHalf(b: Box): nat {
    (Distance(b) + 1) / 2
  }

  function ReverseHalf(b: Box): nat {
    Distance(b) / 2
  }

  /** The point that halves a shortest path; of all such points, the last one on the lowest
      diagonal. */
  ghost predicate IsMiddle(b: Box, x: int, y: int) {
    && 0 <= x <= b.width
    && 0 <= y <= b.height
    && Cost(b, x, y) == ForwardHalf(b)
    && CostToEnd(b, x, y) == ReverseHalf(b)
    && forall px, py :: Meets(b, ForwardHalf(b), ReverseHalf(b), px, py) ==>
                          x - y < px - py || (x - y == px - py && px <= x)
  }

  /** There is only one, so it does not depend on what the search vectors held before. */
  lemma MiddleIsUnique(b: Box, x: int, y: int, px: int, py: int)
    requires IsMiddle(b, x, y) && IsMiddle(b, px, py)
    ensures x == px && y == py
  {
    assert Meets(b, ForwardHalf(b), ReverseHalf(b), x, y);
    assert Meets(b, ForwardHalf(b), ReverseHalf(b), px, py);
  }
}
