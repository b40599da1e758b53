/** The divide-and-conquer comparison: it flags the elements of both inputs that are not on one
    longest common subsequence. */
module Comparison {
  import opened EditGraph
  import opened Frontier
  import opened DiffInput
  import opened MiddleSnake
  import opened SearchWork

  // ----- Parts of a box -----

  /** The first `w` columns and `h` rows of a box, in its own reading direction. */
  function Initial(b: Box, w: nat, h: nat): Box
    requires w <= b.width && h <= b.height
  {
    if b.reversed then
      b.(lowerA := b.lowerA + b.width - w, lowerB := b.lowerB + b.height - h, width := w, height := h)
    else
      b.(width := w, height := h)
  }

  lemma {:induction false} InitialCost(b: Box, w: nat, h: nat, x: nat, y: nat)
    requires x <= w <= b.width && y <= h <= b.height
    ensures Cost(Initial(b, w, h), x, y) == Cost(b, x, y)
    decreases x + y
  {
    if x > 0 && y > 0 {
      assert Initial(b, w, h).Match(x - 1, y - 1) == b.Match(x - 1, y - 1);
      InitialCost(b, w, h, x - 1, y - 1);
      InitialCost(b, w, h, x - 1, y);
      InitialCost(b, w, h, x, y - 1);
    }
  }

  /** A point of a box divides it into two boxes, and its two costs are their distances. */
  lemma DistancesOfParts(data: Arrays, lowerA: nat, x: nat, upperA: nat, lowerB: nat, y: nat, upperB: nat)
    requires lowerA <= x <= upperA && lowerB <= y <= upperB
    ensures var b := BoxOf(data, lowerA, upperA, lowerB, upperB);
            && Distance(BoxOf(data, lowerA, x, lowerB, y)) == Cost(b, x - lowerA, y - lowerB)
            && Distance(BoxOf(data, x, upperA, y, upperB)) == CostToEnd(b, x - lowerA, y - lowerB)
  {
    hide Cost;
    var b := BoxOf(data, lowerA, upperA, lowerB, upperB);
    InitialCost(b, x - lowerA, y - lowerB, x - lowerA, y - lowerB);
    assert Initial(b, x - lowerA, y - lowerB) == BoxOf(data, lowerA, x, lowerB, y);
    InitialCost(b.Reverse(), upperA - x, upperB - y, upperA - x, upperB - y);
    assert Initial(b.Reverse(), upperA - x, upperB - y) == BoxOf(data, x, upperA, y, upperB).Reverse();
    ReversedDistance(BoxOf(data, x, upperA, y, upperB));
  }

  /** Taking a matching pair off the start of a box is lossless. */
  lemma TrimStart(data: Arrays, lowerA: nat, upperA: nat, lowerB: nat, upperB: nat)
    requires lowerA < upperA && lowerB < upperB && data.equal(lowerA, lowerB)
    ensures Distance(BoxOf(data, lowerA, upperA, lowerB, upperB))
         == Distance(BoxOf(data, lowerA + 1, upperA, lowerB + 1, upperB))
  {
    var b := BoxOf(data, lowerA, upperA, lowerB, upperB);
    DistancesOfParts(data, lowerA, lowerA + 1, upperA, lowerB, lowerB + 1, upperB);
    CostToEndUnfolds(b, 0, 0);
    ReversedDistance(b);
  }

  /** So is taking one off its end. */
  lemma TrimEnd(data: Arrays, lowerA: nat, upperA: nat, lowerB: nat, upperB: nat)
    requires lowerA < upperA && lowerB < upperB && data.equal(upperA - 1, upperB - 1)
    ensures Distance(BoxOf(data, lowerA, upperA, lowerB, upperB))
         == Distance(BoxOf(data, lowerA, upperA - 1, lowerB, upperB - 1))
  {
    DistancesOfParts(data, lowerA, upperA - 1, upperA, lowerB, upperB - 1, upperB);
    assert BoxOf(data, lowerA, upperA, lowerB, upperB).Match(upperA - 1 - lowerA, upperB - 1 - lowerB);
  }

  /** Without a match at its start, no other point of a box is free. */
  lemma NothingIsFree(b: Box, x: nat, y: nat)
    requires !b.Match(0, 0) && 0 < x + y
    ensures 1 <= Cost(b, x, y)
  {
    CostBounds(b, x, y);
    if x == y {
      CostGrowsAlongDiagonal(b, 1, 1, x - 1);
    }
  }

  /** Once trimmed, a box with elements on both sides takes at least two moves. */
  lemma TrimmedDistance(b: Box)
    requires 0 < b.width && 0 < b.height
    requires !b.Match(0, 0) && !b.Match(b.width - 1, b.height - 1)
    ensures 2 <= Distance(b)
  {
    NothingIsFree(b, b.width - 1, b.height);
    NothingIsFree(b, b.width, b.height - 1);
  }

  /** So its middle point is neither corner: both parts are smaller than the whole, and their
      distances add up to its distance. */
  lemma MiddleDivides(data: Arrays, lowerA: nat, x: int, upperA: nat, lowerB: nat, y: int, upperB: nat)
    requires lowerA < upperA && lowerB < upperB
    requires !data.equal(lowerA, lowerB) && !data.equal(upperA - 1, upperB - 1)
    requires IsMiddle(BoxOf(data, lowerA, upperA, lowerB, upperB), x - lowerA, y - lowerB)
    ensures lowerA <= x <= upperA && lowerB <= y <= upperB
    ensures lowerA + lowerB < x + y < upperA + upperB
    ensures var b := BoxOf(data, lowerA, upperA, lowerB, upperB);
            && 2 <= Distance(b)
            && Distance(BoxOf(data, lowerA, x, lowerB, y)) == ForwardHalf(b)
            && Distance(BoxOf(data, x, upperA, y, upperB)) == ReverseHalf(b)
            && ForwardHalf(b) + ReverseHalf(b) == Distance(b)
  {
    hide Cost;
    TrimmedDistance(BoxOf(data, lowerA, upperA, lowerB, upperB));
    DistancesOfParts(data, lowerA, x, upperA, lowerB, y, upperB);
    MiddleIsNoCorner(BoxOf(data, lowerA, upperA, lowerB, upperB), x - lowerA, y - lowerB);
  }

  lemma MiddleIsNoCorner(b: Box, x: int, y: int)
    requires 2 <= Distance(b) && IsMiddle(b, x, y)
    ensures 0 < x + y < b.width + b.height
  {
  }

  // ----- The unflagged positions -----

  /** The positions in `[lo, hi)` that no range flags, in increasing order. */
  ghost function Unflagged(ranges: seq<Range>, lo: nat, hi: nat): seq<nat> {
    if hi <= lo then []
    else if Flagged(ranges, hi - 1) then Unflagged(ranges, lo, hi - 1)
    else Unflagged(ranges, lo, hi - 1) + [hi - 1]
  }

  lemma {:induction false} UnflaggedSplits(ranges: seq<Range>, lo: nat, mid: nat, hi: nat)
    requires lo <= mid <= hi
    ensures Unflagged(ranges, lo, hi) == Unflagged(ranges, lo, mid) + Unflagged(ranges, mid, hi)
  {
    if mid < hi {
      UnflaggedSplits(ranges, lo, mid, hi - 1);
    }
  }

  lemma {:induction false} UnflaggedAgrees(ranges: seq<Range>, ranges': seq<Range>, lo: nat, hi: nat)
    requires forall p :: lo <= p < hi ==> Flagged(ranges, p) == Flagged(ranges', p)
    ensures Unflagged(ranges, lo, hi) == Unflagged(ranges', lo, hi)
  {
    if lo < hi {
      UnflaggedAgrees(ranges, ranges', lo, hi - 1);
    }
  }

  lemma {:induction false} UnflaggedNone(ranges: seq<Range>, lo: nat, hi: nat)
    requires forall p :: lo <= p < hi ==> Flagged(ranges, p)
    ensures Unflagged(ranges, lo, hi) == []
  {
    if lo < hi {
      UnflaggedNone(ranges, lo, hi - 1);
    }
  }

  lemma {:induction false} UnflaggedAll(ranges: seq<Range>, lo: nat, hi: nat)
    requires lo <= hi
    requires forall p :: lo <= p < hi ==> !Flagged(ranges, p)
    ensures Unflagged(ranges, lo, hi) == seq(hi - lo, i requires 0 <= i => lo + i)
  {
    if lo < hi {
      UnflaggedAll(ranges, lo, hi - 1);
    }
  }

  // ----- What a comparison of a box achieves -----

  /** The elements at the two lists of positions match pairwise. */
  ghost predicate Aligned(data: Arrays, keptA: seq<nat>, keptB: seq<nat>) {
    && |keptA| == |keptB|
    && forall i :: 0 <= i < |keptA| ==> data.equal(keptA[i], keptB[i])
  }

  /** Only positions in `[lo, hi)` were flagged anew, and the ranges are in normal form. */
  ghost predicate Grown(before: seq<Range>, after: seq<Range>, lo: int, hi: int) {
    && Normal(after, hi)
    && forall p :: p < lo || hi <= p ==> Flagged(before, p) == Flagged(after, p)
  }

  /** In the box, what stays unflagged on one side matches what stays unflagged on the other, and
      as few positions are flagged as the distance allows. */
  ghost predicate Solved(data: Arrays, lowerA: nat, upperA: nat, lowerB: nat, upperB: nat,
                         modA: seq<Range>, modB: seq<Range>)
    requires lowerA <= upperA && lowerB <= upperB
  {
    var keptA, keptB := Unflagged(modA, lowerA, upperA), Unflagged(modB, lowerB, upperB);
    && Aligned(data, keptA, keptB)
    && |keptA| + |keptB| + Distance(BoxOf(data, lowerA, upperA, lowerB, upperB)) == upperA - lowerA + upperB - lowerB
  }

  lemma GrownInOneStep(before: seq<Range>, after: seq<Range>, lo: int, hi: int)
    requires lo <= hi && Normal(before, lo)
    requires || before == after
             || (Normal(after, hi) && forall p :: Flagged(after, p) <==> Flagged(before, p) || lo <= p < hi)
    ensures Grown(before, after, lo, hi)
  {
  }

  lemma GrownInTwoSteps(before: seq<Range>, between: seq<Range>, after: seq<Range>, lo: int, mid: int, hi: int)
    requires lo <= mid <= hi
    requires Grown(before, between, lo, mid) && Grown(between, after, mid, hi)
    ensures Grown(before, after, lo, hi)
  {
    hide Flagged;
  }

  lemma GrownInside(before: seq<Range>, after: seq<Range>, lo: int, lo': int, hi': int, hi: int)
    requires lo <= lo' && hi' <= hi && Grown(before, after, lo', hi')
    ensures Grown(before, after, lo, hi)
  {
    hide Flagged;
  }

  lemma NormalBelow(ranges: seq<Range>, bound: int, bound': int)
    requires Normal(ranges, bound) && bound <= bound'
    ensures Normal(ranges, bound')
  {
  }

  lemma GrownIsNormal(before: seq<Range>, after: seq<Range>, lo: int, hi: int)
    requires Grown(before, after, lo, hi)
    ensures Normal(after, hi)
  {
  }

  lemma NotFlaggedBeyond(ranges: seq<Range>, bound: int, p: int)
    requires Normal(ranges, bound) && bound <= p
    ensures !Flagged(ranges, p)
  {
  }

  /** Flagging all of the one side that has elements solves a box without any on the other. */
  lemma OneSideSolved(data: Arrays, lowerA: nat, upperA: nat, lowerB: nat, upperB: nat,
                      modA: seq<Range>, modB: seq<Range>)
    requires lowerA <= upperA && lowerB <= upperB && (lowerA == upperA || lowerB == upperB)
    requires forall p :: lowerA <= p < upperA ==> Flagged(modA, p)
    requires forall p :: lowerB <= p < upperB ==> Flagged(modB, p)
    ensures Solved(data, lowerA, upperA, lowerB, upperB, modA, modB)
  {
    UnflaggedNone(modA, lowerA, upperA);
    UnflaggedNone(modB, lowerB, upperB);
  }

  /** The solutions of the two boxes at a point whose costs add up solve the whole box. */
  lemma JoinSolved(data: Arrays, lowerA: nat, x: nat, upperA: nat, lowerB: nat, y: nat, upperB: nat,
                   modA: seq<Range>, modB: seq<Range>)
    requires lowerA <= x <= upperA && lowerB <= y <= upperB
    requires Distance(BoxOf(data, lowerA, x, lowerB, y)) + Distance(BoxOf(data, x, upperA, y, upperB))
          == Distance(BoxOf(data, lowerA, upperA, lowerB, upperB))
    requires Solved(data, lowerA, x, lowerB, y, modA, modB) && Solved(data, x, upperA, y, upperB, modA, modB)
    ensures Solved(data, lowerA, upperA, lowerB, upperB, modA, modB)
  {
    hide Distance;
    hide Unflagged;
    UnflaggedSplits(modA, lowerA, x, upperA);
    UnflaggedSplits(modB, lowerB, y, upperB);
  }

  /** The second solution does not touch the first. */
  lemma PartsSolved(data: Arrays, lowerA: nat, x: nat, upperA: nat, lowerB: nat, y: nat, upperB: nat,
                    midA: seq<Range>, midB: seq<Range>, modA: seq<Range>, modB: seq<Range>)
    requires lowerA <= x <= upperA && lowerB <= y <= upperB
    requires Distance(BoxOf(data, lowerA, x, lowerB, y)) + Distance(BoxOf(data, x, upperA, y, upperB))
          == Distance(BoxOf(data, lowerA, upperA, lowerB, upperB))
    requires Solved(data, lowerA, x, lowerB, y, midA, midB)
    requires Grown(midA, modA, x, upperA) && Grown(midB, modB, y, upperB)
    requires Solved(data, x, upperA, y, upperB, modA, modB)
    ensures Solved(data, lowerA, upperA, lowerB, upperB, modA, modB)
  {
    hide Distance;
    hide Flagged;
    UnflaggedAgrees(midA, modA, lowerA, x);
    UnflaggedAgrees(midB, modB, lowerB, y);
    JoinSolved(data, lowerA, x, upperA, lowerB, y, upperB, modA, modB);
  }

  /** A diagonal of matching pairs. */
  ghost predicate Run(data: Arrays, lowerA: nat, upperA: nat, lowerB: nat, upperB: nat) {
    && lowerA <= upperA && upperA - lowerA == upperB - lowerB
    && forall i, j :: lowerA <= i < upperA && j == lowerB + (i - lowerA) ==> data.equal(i, j)
  }

  lemma NoRun(data: Arrays, i: nat, j: nat)
    ensures Run(data, i, i, j, j)
  {
  }

  lemma RunGrows(data: Arrays, lowerA: nat, upperA: nat, lowerB: nat, upperB: nat)
    requires Run(data, lowerA, upperA, lowerB, upperB)
    ensures data.equal(upperA, upperB) ==> Run(data, lowerA, upperA + 1, lowerB, upperB + 1)
    ensures 0 < lowerA && 0 < lowerB && data.equal(lowerA - 1, lowerB - 1) ==>
              Run(data, lowerA - 1, upperA, lowerB - 1, upperB)
  {
  }

  /** A run of matching pairs that stays unflagged solves its own box. */
  lemma {:induction false} RunSolved(data: Arrays, lowerA: nat, upperA: nat, lowerB: nat, upperB: nat,
                                     modA: seq<Range>, modB: seq<Range>)
    requires Run(data, lowerA, upperA, lowerB, upperB)
    requires forall p :: lowerA <= p < upperA ==> !Flagged(modA, p)
    requires forall p :: lowerB <= p < upperB ==> !Flagged(modB, p)
    ensures Distance(BoxOf(data, lowerA, upperA, lowerB, upperB)) == 0
    ensures Solved(data, lowerA, upperA, lowerB, upperB, modA, modB)
  {
    UnflaggedAll(modA, lowerA, upperA);
    UnflaggedAll(modB, lowerB, upperB);
    if lowerA < upperA {
      RunSolved(data, lowerA, upperA - 1, lowerB, upperB - 1, modA, modB);
      TrimEnd(data, lowerA, upperA, lowerB, upperB);
    }
  }

  /** Trimmed runs at both ends and a solution of what is left solve the whole box. */
  lemma TrimmedSolved(data: Arrays, lowerA: nat, loA: nat, hiA: nat, upperA: nat,
                      lowerB: nat, loB: nat, hiB: nat, upperB: nat,
                      oldA: seq<Range>, oldB: seq<Range>, modA: seq<Range>, modB: seq<Range>)
    requires loA <= hiA && loB <= hiB
    requires Run(data, lowerA, loA, lowerB, loB) && Run(data, hiA, upperA, hiB, upperB)
    requires Distance(BoxOf(data, loA, hiA, loB, hiB)) == Distance(BoxOf(data, lowerA, upperA, lowerB, upperB))
    requires Normal(oldA, lowerA) && Normal(oldB, lowerB)
    requires Grown(oldA, modA, loA, hiA) && Grown(oldB, modB, loB, hiB)
    requires Solved(data, loA, hiA, loB, hiB, modA, modB)
    ensures Solved(data, lowerA, upperA, lowerB, upperB, modA, modB)
  {
    forall p | lowerA <= p < loA || hiA <= p ensures !Flagged(modA, p) {
      NotFlaggedBeyond(oldA, lowerA, p);
    }
    forall p | lowerB <= p < loB || hiB <= p ensures !Flagged(modB, p) {
      NotFlaggedBeyond(oldB, lowerB, p);
    }
    hide Distance;
    hide Flagged;
    hide Solved;
    RunSolved(data, lowerA, loA, lowerB, loB, modA, modB);
    RunSolved(data, hiA, upperA, hiB, upperB, modA, modB);
    RunIsFree(data, lowerA, loA, hiA, lowerB, loB, hiB);
    JoinSolved(data, lowerA, loA, hiA, lowerB, loB, hiB, modA, modB);
    JoinSolved(data, lowerA, hiA, upperA, lowerB, hiB, upperB, modA, modB);
  }

  /** A run before a box adds nothing to its distance. */
  lemma {:induction false} RunIsFree(data: Arrays, lowerA: nat, loA: nat, upperA: nat, lowerB: nat, loB: nat,
                                     upperB: nat)
    requires Run(data, lowerA, loA, lowerB, loB) && loA <= upperA && loB <= upperB
    ensures Distance(BoxOf(data, lowerA, upperA, lowerB, upperB)) == Distance(BoxOf(data, loA, upperA, loB, upperB))
    decreases loA - lowerA
  {
    hide Distance;
    if lowerA < loA {
      TrimStart(data, lowerA, upperA, lowerB, upperB);
      RunIsFree(data, lowerA + 1, loA, upperA, lowerB + 1, loB, upperB);
    }
  }

  /** The callback is called at most in proportion to the size of A and the distance, and the number
      of cells written is at most in proportion to the square of the distance. */
  ghost predicate WorkFits(data: Arrays, lowerA: nat, upperA: nat, lowerB: nat, upperB: nat, calls: nat, cells: nat)
    requires lowerA <= upperA && lowerB <= upperB
  {
    var d := Distance(BoxOf(data, lowerA, upperA, lowerB, upperB));
    calls <= CallsBound(upperA - lowerA, d) && cells <= CellsBound(d)
  }

  lemma TrimmingFits(data: Arrays, lowerA: nat, upperA: nat, lowerB: nat, upperB: nat, trimmed: nat, calls: nat)
    requires lowerA <= upperA && lowerB <= upperB && trimmed <= upperA - lowerA
    requires calls <= trimmed + 2 && (lowerA == upperA ==> calls == 0)
    ensures WorkFits(data, lowerA, upperA, lowerB, upperB, calls, 0)
  {
    hide Distance;
    TrimmingIsCheap(upperA - lowerA, trimmed, calls, Distance(BoxOf(data, lowerA, upperA, lowerB, upperB)));
  }

  /** The work on a box: trimming it, dividing it, and the work on its parts. */
  lemma HalvesFit(data: Arrays, lowerA: nat, loA: nat, x: nat, hiA: nat, upperA: nat,
                  lowerB: nat, loB: nat, y: nat, hiB: nat, upperB: nat,
                  trimming: nat, searched: nat, written: nat, calls1: nat, cells1: nat, calls2: nat, cells2: nat)
    requires lowerA <= loA <= x <= hiA <= upperA && lowerB <= loB <= y <= hiB <= upperB && loA < hiA
    requires var b := BoxOf(data, loA, hiA, loB, hiB);
             && 2 <= Distance(b) == Distance(BoxOf(data, lowerA, upperA, lowerB, upperB))
             && Distance(BoxOf(data, loA, x, loB, y)) == ForwardHalf(b)
             && Distance(BoxOf(data, x, hiA, y, hiB)) == ReverseHalf(b)
             && SearchFits(b, searched, written)
    requires trimming <= loA - lowerA + upperA - hiA + 2
    requires WorkFits(data, loA, x, loB, y, calls1, cells1)
    requires WorkFits(data, x, hiA, y, hiB, calls2, cells2)
    ensures WorkFits(data, lowerA, upperA, lowerB, upperB, trimming + searched + calls1 + calls2,
                     written + cells1 + cells2)
  {
    hide Distance;
    hide CallsBound;
    hide CellsBound;
    var b := BoxOf(data, loA, hiA, loB, hiB);
    var d1, d2 := ForwardHalf(b), ReverseHalf(b);
    var trimmed := loA - lowerA + upperA - hiA;
    assert 1 <= d2 <= d1 <= d2 + 1 && d1 + d2 == Distance(b);
    assert (x - loA) + (hiA - x) == hiA - loA;
    HalvesAddUp(trimmed, x - loA, hiA - x, d1, d2, trimming, searched, calls1, calls2);
    CellsAddUp(d1, d2, written, cells1, cells2);
  }

  /** The longest common prefix of the two ranges, and the longest common suffix of what it leaves. */
  ghost predicate AreCommonEnds(data: Arrays, lowerA: nat, loA: nat, hiA: nat, upperA: nat,
                                lowerB: nat, loB: nat, hiB: nat, upperB: nat) {
    && loA <= hiA && loB <= hiB
    && Run(data, lowerA, loA, lowerB, loB)
    && (loA < upperA && loB < upperB ==> !data.equal(loA, loB))
    && Run(data, hiA, upperA, hiB, upperB)
    && (loA < hiA && loB < hiB ==> !data.equal(hiA - 1, hiB - 1))
  }

  ghost predicate AreUnflagged(ranges: seq<Range>, lo: nat, hi: nat) {
    forall p :: lo <= p < hi ==> !Flagged(ranges, p)
  }

  /** Both common ends stay unflagged. */
  ghost predicate KeepsEnds(data: Arrays, lowerA: nat, loA: nat, hiA: nat, upperA: nat,
                            lowerB: nat, loB: nat, hiB: nat, upperB: nat, modA: seq<Range>, modB: seq<Range>) {
    && AreCommonEnds(data, lowerA, loA, hiA, upperA, lowerB, loB, hiB, upperB)
    && AreUnflagged(modA, lowerA, loA) && AreUnflagged(modA, hiA, upperA)
    && AreUnflagged(modB, lowerB, loB) && AreUnflagged(modB, hiB, upperB)
  }

  lemma OutsideIsUnflagged(before: seq<Range>, after: seq<Range>, lower: nat, lo: nat, hi: nat, upper: nat)
    requires Normal(before, lower) && Grown(before, after, lo, hi) && lower <= lo
    ensures AreUnflagged(after, lower, lo)
    ensures lo <= hi ==> AreUnflagged(after, hi, upper)
  {
    forall p | lower <= p ensures !Flagged(before, p) {
      NotFlaggedBeyond(before, lower, p);
    }
    hide Flagged;
    hide Normal;
  }

  /** Flags what is not on a longest common subsequence of the two ranges. */
  method LCS(dataA: DiffData, lowerA: nat, upperA: nat, dataB: DiffData, lowerB: nat, upperB: nat,
             downVector: array<int>, upVector: array<int>)
    returns (ghost calls: nat, ghost cells: nat)
    requires InBounds(dataA, lowerA, upperA, dataB, lowerB, upperB, downVector, upVector)
    requires Normal(dataA.modified, lowerA) && Normal(dataB.modified, lowerB)
    modifies dataA, dataB, downVector, upVector
    ensures Grown(old(dataA.modified), dataA.modified, lowerA, upperA)
    ensures Grown(old(dataB.modified), dataB.modified, lowerB, upperB)
    ensures Solved(dataA.data, lowerA, upperA, lowerB, upperB, dataA.modified, dataB.modified)
    ensures WorkFits(dataA.data, lowerA, upperA, lowerB, upperB, calls, cells)
    ensures exists loA, hiA, loB, hiB ::
              KeepsEnds(dataA.data, lowerA, loA, hiA, upperA, lowerB, loB, hiB, upperB, dataA.modified, dataB.modified)
    decreases upperA - lowerA + upperB - lowerB
  {
    hide Distance;
    hide IsMiddle;
    hide Flagged;
    hide Normal;
    hide Grown;
    hide Solved;
    hide Run;
    hide WorkFits;
    hide SearchFits;
    hide ForwardHalf;
    ghost var data := dataA.data;
    ghost var oldA, oldB := dataA.modified, dataB.modified;
    var loA, hiA, loB, hiB := lowerA, upperA, lowerB, upperB;

    // Matching pairs at the start are unflagged.
    NoRun(data, loA, loB);
    calls, cells := 0, 0;
    while loA < hiA && loB < hiB && dataA.data.Equal(loA, loB)
      invariant lowerA <= loA <= hiA && lowerB <= loB <= hiB
      invariant Run(data, lowerA, loA, lowerB, loB) && calls == loA - lowerA
      invariant Distance(BoxOf(data, loA, hiA, loB, hiB)) == Distance(BoxOf(data, lowerA, upperA, lowerB, upperB))
      modifies {}
    {
      TrimStart(data, loA, hiA, loB, hiB);
      RunGrows(data, lowerA, loA, lowerB, loB);
      loA := loA + 1;
      loB := loB + 1;
      calls := calls + 1;
    }
    if loA < hiA && loB < hiB {
      calls := calls + 1;
    }

    // So are those at the end.
    NoRun(data, hiA, hiB);
    while loA < hiA && loB < hiB && dataA.data.Equal(hiA - 1, hiB - 1)
      invariant loA <= hiA <= upperA && loB <= hiB <= upperB
      invariant Run(data, hiA, upperA, hiB, upperB)
      invariant loA - lowerA <= calls <= loA - lowerA + 1 + upperA - hiA && (lowerA == upperA ==> calls == 0)
      invariant Distance(BoxOf(data, loA, hiA, loB, hiB)) == Distance(BoxOf(data, lowerA, upperA, lowerB, upperB))
      modifies {}
    {
      TrimEnd(data, loA, hiA, loB, hiB);
      RunGrows(data, hiA, upperA, hiB, upperB);
      hiA := hiA - 1;
      hiB := hiB - 1;
      calls := calls + 1;
    }
    if loA < hiA && loB < hiB {
      calls := calls + 1;
    }
    ghost var trimming := calls;
    assert AreCommonEnds(data, lowerA, loA, hiA, upperA, lowerB, loB, hiB, upperB);
    hide AreCommonEnds;
    hide AreUnflagged;

    NormalBelow(oldA, lowerA, loA);
    NormalBelow(oldB, lowerB, loB);
    if loA == hiA {
      // Only elements of B are left.
      if hiB > loB {
        dataB.AddRange(Range(loB, hiB - loB));
      }
      GrownInOneStep(oldA, dataA.modified, loA, hiA);
      GrownInOneStep(oldB, dataB.modified, loB, hiB);
      OneSideSolved(data, loA, hiA, loB, hiB, dataA.modified, dataB.modified);
      TrimmingFits(data, lowerA, upperA, lowerB, upperB, loA - lowerA + upperA - hiA, calls);
    } else if loB == hiB {
      // Only elements of A are left.
      if hiA > loA {
        dataA.AddRange(Range(loA, hiA - loA));
      }
      GrownInOneStep(oldA, dataA.modified, loA, hiA);
      GrownInOneStep(oldB, dataB.modified, loB, hiB);
      OneSideSolved(data, loA, hiA, loB, hiB, dataA.modified, dataB.modified);
      TrimmingFits(data, lowerA, upperA, lowerB, upperB, loA - lowerA + upperA - hiA, calls);
    } else {
      // Both sides have elements: the box is divided at its middle point.
      var smsrd;
      ghost var searched, written, calls1, cells1, calls2, cells2;
      smsrd, searched, written := SMS(dataA, loA, hiA, dataB, loB, hiB, downVector, upVector);
      MiddleDivides(data, loA, smsrd.x, hiA, loB, smsrd.y, hiB);
      calls1, cells1 := LCS(dataA, loA, smsrd.x, dataB, loB, smsrd.y, downVector, upVector);
      ghost var midA, midB := dataA.modified, dataB.modified;
      GrownIsNormal(oldA, midA, loA, smsrd.x);
      GrownIsNormal(oldB, midB, loB, smsrd.y);
      calls2, cells2 := LCS(dataA, smsrd.x, hiA, dataB, smsrd.y, hiB, downVector, upVector);
      HalvesFit(data, lowerA, loA, smsrd.x, hiA, upperA, lowerB, loB, smsrd.y, hiB, upperB,
                trimming, searched, written, calls1, cells1, calls2, cells2);
      calls, cells := trimming + searched + calls1 + calls2, written + cells1 + cells2;
      PartsSolved(data, loA, smsrd.x, hiA, loB, smsrd.y, hiB, midA, midB, dataA.modified, dataB.modified);
      GrownInTwoSteps(oldA, midA, dataA.modified, loA, smsrd.x, hiA);
      GrownInTwoSteps(oldB, midB, dataB.modified, loB, smsrd.y, hiB);
    }
    OutsideIsUnflagged(oldA, dataA.modified, lowerA, loA, hiA, upperA);
    OutsideIsUnflagged(oldB, dataB.modified, lowerB, loB, hiB, upperB);
    assert KeepsEnds(data, lowerA, loA, hiA, upperA, lowerB, loB, hiB, upperB, dataA.modified, dataB.modified);
    hide KeepsEnds;
    TrimmedSolved(data, lowerA, loA, hiA, upperA, lowerB, loB, hiB, upperB,
                  oldA, oldB, dataA.modified, dataB.modified);
    GrownInside(oldA, dataA.modified, lowerA, loA, hiA, upperA);
    GrownInside(oldB, dataB.modified, lowerB, loB, hiB, upperB);
  }
}
