/** How much work a search is: the points it compares and the cells it writes. */
module SearchWork {
  import opened EditGraph

  /** A pair of elements of the box that takes `d` moves to get to. */
  predicate IsAsked(b: Box, p: (int, int), d: int) {
    && 0 <= p.0 < b.width
    && 0 <= p.1 < b.height
    && Cost(b, p.0, p.1) == d
  }

  /** Pairs that were compared, all of them `d` moves away. */
  ghost predicate AreAsked(b: Box, asked: set<(int, int)>, d: int) {
    forall p :: p in asked ==> IsAsked(b, p, d)
  }

  /** Pairs less than `d` moves away. */
  ghost predicate AreWithin(b: Box, asked: set<(int, int)>, d: int) {
    forall p :: p in asked ==> 0 <= p.0 < b.width && 0 <= p.1 < b.height && Cost(b, p.0, p.1) < d
  }

  /** Another round compares other pairs. */
  lemma AnotherRound(b: Box, asked: set<(int, int)>, more: set<(int, int)>, d: int)
    requires AreWithin(b, asked, d) && AreAsked(b, more, d)
    ensures AreWithin(b, asked + more, d + 1) && |asked + more| == |asked| + |more|
  {
    assert asked * more == {};
    hide Cost;
  }

  /** The cells of one column that are near a diagonal. */
  lemma {:induction false} ColumnIsSmall(points: set<(int, int)>, x: int, low: int, n: nat)
    requires forall p :: p in points ==> p.0 == x && low <= p.1 < low + n
    ensures |points| <= n
  {
    if n == 0 {
      assert points == {};
    } else {
      var last := (x, low + n - 1);
      ColumnIsSmall(points - {last}, x, low, n - 1);
    }
  }

  /** Few points are within `d` of the first diagonal. */
  lemma {:induction false} BandIsSmall(points: set<(int, int)>, width: nat, d: nat)
    requires forall p :: p in points ==> 0 <= p.0 < width && 0 - d <= p.0 - p.1 <= d
    ensures |points| <= width * (2 * d + 1)
  {
    if width == 0 {
      assert points == {};
    } else {
      var column := set p | p in points && p.0 == width - 1;
      var others := points - column;
      BandIsSmall(others, width - 1, d);
      ColumnIsSmall(column, width - 1, width - 1 - d, 2 * d + 1);
      assert |points| == |others| + |column|;
      OneMoreColumn(width, 2 * d + 1);
    }
  }

  lemma OneMoreColumn(width: nat, n: nat)
    requires 0 < width
    ensures width * n == (width - 1) * n + n
  {
  }

  /** Pairs that few moves get to are few: they are near the first diagonal. */
  lemma FewAreWithin(b: Box, asked: set<(int, int)>, d: nat)
    requires AreWithin(b, asked, d + 1)
    ensures |asked| <= b.width * (2 * d + 1)
  {
    forall p | p in asked ensures 0 - d <= p.0 - p.1 <= d {
      CostBounds(b, p.0, p.1);
    }
    hide Cost;
    BandIsSmall(asked, b.width, d);
  }

  // ----- Adding up the work of a recursion -----

  function Times(a: nat, b: nat): nat {
    a * b
  }

  /** The bound for a box of `width` elements of A and distance `d`. */
  function CallsBound(width: nat, d: nat): nat {
    width * (12 * d + 3)
  }

  function CellsBound(d: nat): nat {
    4 * d * d
  }

  lemma BoundExpands(width: nat, d: nat)
    ensures CallsBound(width, d) == 12 * Times(width, d) + 3 * width
  {
  }

  lemma TrimmingIsCheap(width: nat, trimmed: nat, calls: nat, d: nat)
    requires trimmed <= width && calls <= trimmed + 2 && (width == 0 ==> calls == 0)
    ensures calls <= CallsBound(width, d)
  {
    BoundExpands(width, d);
  }

  lemma TimesSum(a: nat, b: nat, c: nat)
    ensures Times(a + b, c) == Times(a, c) + Times(b, c)
    ensures Times(c, a + b) == Times(c, a) + Times(c, b)
  {
  }

  lemma TimesGrows(a: nat, b: nat, c: nat)
    requires b <= c
    ensures Times(a, b) <= Times(a, c)
  {
    TimesSum(b, c - b, a);
  }

  lemma SearchedIs(inner: nat, d1: nat)
    ensures 2 * (inner * (2 * d1 + 1)) == 4 * Times(inner, d1) + 2 * inner
  {
  }

  /** The shorter half is at least a third of the longer one and one more. */
  lemma ThreeTimes(inner: nat, d1: nat, d2: nat)
    requires d1 + 1 <= 3 * d2
    ensures Times(inner, d1) + inner <= 3 * Times(inner, d2)
  {
    var gap := 3 * d2 - d1 - 1;
    assert inner * (d1 + 1 + gap) == inner * d1 + inner + inner * gap;
    assert inner * (3 * d2) == 3 * (inner * d2);
  }

  /** What both halves may take, with the search that divided the box and the trimming before it. */
  lemma HalvesAddUp(trimmed: nat, width1: nat, width2: nat, d1: nat, d2: nat,
                    calls: nat, searched: nat, calls1: nat, calls2: nat)
    requires 0 < width1 + width2
    requires 1 <= d2 <= d1 <= d2 + 1
    requires calls <= trimmed + 2
    requires searched <= 2 * ((width1 + width2) * (2 * d1 + 1))
    requires calls1 <= CallsBound(width1, d1) && calls2 <= CallsBound(width2, d2)
    ensures calls + searched + calls1 + calls2 <= CallsBound(trimmed + width1 + width2, d1 + d2)
  {
    var inner := width1 + width2;
    hide *;
    BoundExpands(width1, d1);
    BoundExpands(width2, d2);
    BoundExpands(trimmed + inner, d1 + d2);
    SearchedIs(inner, d1);
    TimesSum(width1, width2, d1);
    TimesGrows(width2, d2, d1);
    ThreeTimes(inner, d1, d2);
    TimesSum(trimmed, inner, d1 + d2);
    TimesSum(d1, d2, inner);
    assert searched <= 4 * Times(inner, d1) + 2 * inner;
  }

  lemma CellsAddUp(d1: nat, d2: nat, searched: nat, cells1: nat, cells2: nat)
    requires 1 <= d2 <= d1 <= d2 + 1
    requires searched <= (d1 + 1) * (d1 + 2) + 2
    requires cells1 <= CellsBound(d1) && cells2 <= CellsBound(d2)
    ensures searched + cells1 + cells2 <= CellsBound(d1 + d2)
  {
    assert CellsBound(d1 + d2) == CellsBound(d1) + CellsBound(d2) + 8 * (d1 * d2);
    assert d1 * d2 >= d1 * (d1 - 1);
    if d1 == 1 {
      assert d2 == 1;
    } else {
      assert d1 * d1 >= 2 * d1;
    }
  }
}
