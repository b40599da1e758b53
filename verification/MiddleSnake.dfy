/** The bidirectional search for the point that halves a shortest path through a box. */
module MiddleSnake {
  import opened EditGraph
  import opened Frontier
  import opened DiffInput
  import opened SearchWork

  datatype SMSRD = SMSRD(x: int, y: int)

  /** The box `[lowerA, upperA) x [lowerB, upperB)` of the two inputs. */
  function BoxOf(data: Arrays, lowerA: nat, upperA: nat, lowerB: nat, upperB: nat): Box
    requires lowerA <= upperA && lowerB <= upperB
  {
    Box(data, lowerA, lowerB, upperA - lowerA, upperB - lowerB, false)
  }

  /** The two inputs belong together, and the bounds and vectors fit them. The contents of the
      vectors do not matter. */
  ghost predicate InBounds(dataA: DiffData, lowerA: nat, upperA: nat, dataB: DiffData, lowerB: nat, upperB: nat,
                 downVector: array<int>, upVector: array<int>)
  {
    && dataA != dataB
    && dataA.data == dataB.data == Arrays(dataA.Length, dataB.Length, dataA.data.equal)
    && lowerA <= upperA <= dataA.Length
    && lowerB <= upperB <= dataB.Length
    && downVector != upVector
    && downVector.Length == upVector.Length == 2 * (dataA.Length + dataB.Length + 1) + 2
  }

  // ----- What the cells of the two vectors stand for -----

  /** How far the diagonal of the end of the box is from the diagonal of its start. */
  function Delta(b: Box): int {
    b.width - b.height
  }

  /** Cell `p` of `DownVector` holds the furthest point of forward row `d` on its diagonal.
      Diagonals count from the start of the box, whose own diagonal has cell `mid`. */
  ghost predicate DownCell(b: Box, down: seq<int>, mid: int, d: int, p: int) {
    0 <= p < |down| && Furthest(b, d, p - mid, down[p] - b.lowerA)
  }

  /** The same for `UpVector` and the reverse search, whose diagonals count from the end. */
  ghost predicate UpCell(b: Box, up: seq<int>, mid: int, e: int, q: int) {
    0 <= q < |up| && FurthestBack(b, e, q - mid + Delta(b), up[q] - b.lowerA)
  }

  /** The cells of forward row `d` on the diagonals below `hi` are done. */
  ghost predicate DownRow(b: Box, down: seq<int>, mid: int, d: int, hi: int) {
    forall p :: p < mid + hi && OnRow(d, p - mid) ==> DownCell(b, down, mid, d, p)
  }

  ghost predicate UpRow(b: Box, up: seq<int>, mid: int, e: int, hi: int) {
    forall q :: q < mid + hi && OnRow(e, q - mid) ==> UpCell(b, up, mid, e, q)
  }

  /** Diagonal `k` belongs to forward row `d` and to reverse row `e`. */
  predicate Shared(b: Box, d: int, e: int, k: int) {
    OnRow(d, k) && OnRow(e, k - Delta(b))
  }

  /** The forward point in cell `p` has not come up to the reverse point on the same diagonal. */
  predicate Apart(b: Box, down: seq<int>, up: seq<int>, p: int) {
    0 <= p < |down| && 0 <= p - Delta(b) < |up| && down[p] < up[p - Delta(b)]
  }

  /** No overlap on the diagonals below `hi` that the two rows share. */
  ghost predicate NoOverlap(b: Box, down: seq<int>, up: seq<int>, mid: int, d: int, e: int, hi: int) {
    forall p :: p < mid + hi && Shared(b, d, e, p - mid) ==> Apart(b, down, up, p)
  }

  /** A meeting point within the distance is on a diagonal of both rows. */
  lemma MeetingIsShared(b: Box, d: int, e: int, x: int, y: int)
    requires Meets(b, d, e, x, y) && d + e <= Distance(b)
    ensures Shared(b, d, e, x - y)
  {
    MeetingIsExact(b, d, e, x, y);
    CostIsOnRow(b, x, y);
    CostIsOnRow(b.Reverse(), b.width - x, b.height - y);
  }

  /** There the cells of the two rows overlap, and the overlap holds every meeting point. */
  lemma OverlapAt(b: Box, down: seq<int>, up: seq<int>, mid: int, d: int, e: int, k: int, x: int)
    requires Shared(b, d, e, k) && d + e <= Distance(b)
    requires DownCell(b, down, mid, d, mid + k) && UpCell(b, up, mid, e, mid + k - Delta(b))
    ensures var last := down[mid + k] - b.lowerA;
            var first := up[mid + k - Delta(b)] - b.lowerA;
            && (first <= last ==> Meets(b, d, e, last, last - k))
            && (Meets(b, d, e, x, x - k) ==> first <= x <= last)
  {
    hide Cost;
    hide Distance;
    hide Meets;
    hide Furthest;
    var last := down[mid + k] - b.lowerA;
    var first := up[mid + k - Delta(b)] - b.lowerA;
    OverlapIsMeeting(b, d, e, k, last, first, x);
  }

  /** The first overlap in a pair of rows is the middle point. */
  lemma FirstOverlapIsMiddle(b: Box, down: seq<int>, up: seq<int>, mid: int, d: int, e: int, k: int)
    requires e <= d <= e + 1 && d + e <= Distance(b)
    requires Shared(b, d, e, k)
    requires DownRow(b, down, mid, d, k + 1)
    requires UpRow(b, up, mid, e, k + 1 - Delta(b))
    requires NoOverlap(b, down, up, mid, d, e, k)
    requires 0 <= mid + k < |down| && 0 <= mid + k - Delta(b) < |up|
    requires up[mid + k - Delta(b)] <= down[mid + k]
    ensures d + e == Distance(b)
    ensures IsMiddle(b, down[mid + k] - b.lowerA, down[mid + k] - b.lowerA - k)
  {
    var x := down[mid + k] - b.lowerA;
    RowsAt(b, down, up, mid, d, e, k, k);
    hide *;
    OverlapAt(b, down, up, mid, d, e, k, 0);
    forall px, py | Meets(b, d, e, px, py) ensures k < px - py || (k == px - py && px <= x) {
      if px - py <= k {
        NotEarlier(b, down, up, mid, d, e, k, px, py);
      }
    }
    FirstMeetingIsMiddle(b, d, e, x, x - k);
  }

  /** The last meeting point of the lowest diagonal halves a shortest path. */
  lemma FirstMeetingIsMiddle(b: Box, d: int, e: int, x: int, y: int)
    requires e <= d <= e + 1 && d + e <= Distance(b) && Meets(b, d, e, x, y)
    requires forall px, py :: Meets(b, d, e, px, py) ==> x - y < px - py || (x - y == px - py && px <= x)
    ensures d + e == Distance(b) && IsMiddle(b, x, y)
  {
    MeetingIsExact(b, d, e, x, y);
    hide Cost;
    hide Distance;
    hide CostToEnd;
  }

  lemma NotEarlier(b: Box, down: seq<int>, up: seq<int>, mid: int, d: int, e: int, k: int, px: int, py: int)
    requires d + e <= Distance(b)
    requires DownRow(b, down, mid, d, k + 1)
    requires UpRow(b, up, mid, e, k + 1 - Delta(b))
    requires NoOverlap(b, down, up, mid, d, e, k)
    requires Meets(b, d, e, px, py) && px - py <= k
    ensures px - py == k && 0 <= mid + k < |down| && px <= down[mid + k] - b.lowerA
  {
    hide Meets;
    hide Distance;
    hide Furthest;
    hide FurthestBack;
    var k' := px - py;
    MeetingIsShared(b, d, e, px, py);
    RowsAt(b, down, up, mid, d, e, k, k');
    assert px - k' == py;
    if k' < k {
      assert Shared(b, d, e, mid + k' - mid);
      assert Apart(b, down, up, mid + k');
    }
    OverlapAt(b, down, up, mid, d, e, k', px);
  }

  /** Rows that are done up to a shared diagonal have its cells. */
  lemma RowsAt(b: Box, down: seq<int>, up: seq<int>, mid: int, d: int, e: int, k: int, k': int)
    requires DownRow(b, down, mid, d, k + 1)
    requires UpRow(b, up, mid, e, k + 1 - Delta(b))
    requires Shared(b, d, e, k') && k' <= k
    ensures DownCell(b, down, mid, d, mid + k') && UpCell(b, up, mid, e, mid + k' - Delta(b))
  {
    hide DownCell;
    hide UpCell;
    assert OnRow(d, mid + k' - mid) && OnRow(e, mid + k' - Delta(b) - mid);
  }

  /** A pair of rows without an overlap rules out their sum as the distance. */
  lemma NoOverlapMeansFurtherApart(b: Box, down: seq<int>, up: seq<int>, mid: int, d: int, e: int)
    requires 0 <= d && 0 <= e && d + e <= Distance(b)
    requires DownRow(b, down, mid, d, d + 1)
    requires UpRow(b, up, mid, e, e + 1)
    requires NoOverlap(b, down, up, mid, d, e, d + 1)
    ensures d + e < Distance(b)
  {
    hide DownCell;
    hide UpCell;
    hide Apart;
    hide Meets;
    hide Distance;
    if d + e == Distance(b) {
      var x: int, y: int := MeetingPointExists(b, d, e);
      MeetingIsShared(b, d, e, x, y);
      NotEarlier(b, down, up, mid, d, e, d + 1, x, y);
    }
  }

  /** Writing the next cell of row `d` completes the row up to it. */
  lemma DownRowGrows(b: Box, before: seq<int>, after: seq<int>, mid: int, d: int, k: int)
    requires OnRow(d, k) && 0 <= mid + k < |before| == |after|
    requires after == before[mid + k := after[mid + k]]
    requires DownRow(b, before, mid, d, k) && DownCell(b, after, mid, d, mid + k)
    ensures DownRow(b, after, mid, d, k + 2)
  {
    hide Furthest;
    forall p | p < mid + k + 2 && OnRow(d, p - mid) ensures DownCell(b, after, mid, d, p) {
      if p != mid + k {
        assert DownCell(b, before, mid, d, p);
      }
    }
  }

  lemma UpRowGrows(b: Box, before: seq<int>, after: seq<int>, mid: int, e: int, k: int)
    requires OnRow(e, k) && 0 <= mid + k < |before| == |after|
    requires after == before[mid + k := after[mid + k]]
    requires UpRow(b, before, mid, e, k) && UpCell(b, after, mid, e, mid + k)
    ensures UpRow(b, after, mid, e, k + 2)
  {
    hide FurthestBack;
    forall q | q < mid + k + 2 && OnRow(e, q - mid) ensures UpCell(b, after, mid, e, q) {
      if q != mid + k {
        assert UpCell(b, before, mid, e, q);
      }
    }
  }

  /** Rows alternate: writing a cell that is not on row `d` leaves the row intact. */
  lemma DownRowStays(b: Box, before: seq<int>, after: seq<int>, mid: int, d: int, hi: int, k: int)
    requires !OnRow(d, k) && 0 <= mid + k < |before| == |after|
    requires after == before[mid + k := after[mid + k]]
    requires DownRow(b, before, mid, d, hi)
    ensures DownRow(b, after, mid, d, hi)
  {
    hide Furthest;
    forall p | p < mid + hi && OnRow(d, p - mid) ensures DownCell(b, after, mid, d, p) {
      assert DownCell(b, before, mid, d, p);
    }
  }

  lemma UpRowStays(b: Box, before: seq<int>, after: seq<int>, mid: int, e: int, hi: int, k: int)
    requires !OnRow(e, k) && 0 <= mid + k < |before| == |after|
    requires after == before[mid + k := after[mid + k]]
    requires UpRow(b, before, mid, e, hi)
    ensures UpRow(b, after, mid, e, hi)
  {
    hide FurthestBack;
    forall q | q < mid + hi && OnRow(e, q - mid) ensures UpCell(b, after, mid, e, q) {
      assert UpCell(b, before, mid, e, q);
    }
  }

  /** The cells that a step reads were all written by this search, one round earlier. */
  lemma DownRowFeeds(b: Box, down: seq<int>, mid: int, d: int, k: int)
    requires 0 <= d && OnRow(d, k) && 0 < mid + k < |down| - 1
    requires if d == 0 then down[mid + 1] == b.lowerA else DownRow(b, down, mid, d - 1, d)
    ensures Feeds(b, d, k, down[mid + k - 1] - b.lowerA, down[mid + k + 1] - b.lowerA)
  {
    hide Furthest;
    if k > -d {
      assert OnRow(d - 1, mid + k - 1 - mid);
      assert DownCell(b, down, mid, d - 1, mid + k - 1);
    }
    if k < d {
      assert OnRow(d - 1, mid + k + 1 - mid);
      assert DownCell(b, down, mid, d - 1, mid + k + 1);
    }
  }

  lemma UpRowFeeds(b: Box, up: seq<int>, mid: int, e: int, k: int)
    requires 0 <= e && OnRow(e, k) && 0 < mid + k < |up| - 1
    requires if e == 0 then up[mid - 1] == b.lowerA + b.width else UpRow(b, up, mid, e - 1, e)
    ensures Feeds(b.Reverse(), e, -k, b.lowerA + b.width - up[mid + k + 1], b.lowerA + b.width - up[mid + k - 1])
  {
    hide Furthest;
    if k < e {
      assert OnRow(e - 1, mid + k + 1 - mid);
      assert UpCell(b, up, mid, e - 1, mid + k + 1);
    }
    if k > -e {
      assert OnRow(e - 1, mid + k - 1 - mid);
      assert UpCell(b, up, mid, e - 1, mid + k - 1);
    }
  }

  /** Shared diagonals lie two apart. */
  lemma NoOverlapGrows(b: Box, down: seq<int>, up: seq<int>, mid: int, d: int, e: int, k: int)
    requires OnRow(d, k) || OnRow(e, k - Delta(b))
    requires NoOverlap(b, down, up, mid, d, e, k)
    requires Shared(b, d, e, k) ==> Apart(b, down, up, mid + k)
    ensures NoOverlap(b, down, up, mid, d, e, k + 2)
  {
    hide Apart;
    forall p | p < mid + k + 2 && Shared(b, d, e, p - mid) ensures Apart(b, down, up, p) {
      if p < mid + k {
        assert Apart(b, down, up, p);
      } else {
        TwoApart(b, d, e, k, p - mid);
      }
    }
  }

  lemma TwoApart(b: Box, d: int, e: int, k: int, k': int)
    requires OnRow(d, k) || OnRow(e, k - Delta(b))
    requires Shared(b, d, e, k') && k <= k' < k + 2
    ensures k' == k
  {
    hide Delta;
  }

  /** Writing the cells of diagonal `k` leaves the diagonals before it as they were. */
  lemma NoOverlapStays(b: Box, down: seq<int>, up: seq<int>, down': seq<int>, up': seq<int>, mid: int, d: int, e: int,
                       k: int)
    requires |down| == |down'| && |up| == |up'|
    requires forall p :: 0 <= p < |down| && p != mid + k ==> down'[p] == down[p]
    requires forall q :: 0 <= q < |up| && q != mid + k - Delta(b) ==> up'[q] == up[q]
    requires NoOverlap(b, down, up, mid, d, e, k)
    ensures NoOverlap(b, down', up', mid, d, e, k)
  {
    forall p | p < mid + k && Shared(b, d, e, p - mid) ensures Apart(b, down', up', p) {
      assert Apart(b, down, up, p);
    }
  }

  // ----- One round of the search -----

  predicate Sized(b: Box, down: seq<int>, up: seq<int>, mid: int, D: int) {
    && |down| == |up| == 2 * mid + 2
    && 0 < b.width && 0 < b.height && b.width + b.height < mid
    && 0 <= D <= (b.width + b.height) / 2 + 1
  }

  predicate Odd(n: int) {
    n % 2 != 0
  }

  /** The forward half of round `D`, about to handle diagonal `k`. Before the first diagonal this
      is what a round starts from: the initial cells or the rows of the round before, and no
      shorter distance being possible any more. */
  ghost predicate InForwardHalf(b: Box, down: seq<int>, up: seq<int>, mid: int, D: int, k: int) {
    && Sized(b, down, up, mid, D)
    && -D <= k <= D + 2 && (k + D) % 2 == 0
    && DownRow(b, down, mid, D, k)
    && (if D == 0 then k == 0 ==> down[mid + 1] == b.lowerA else DownRow(b, down, mid, D - 1, D))
    && (if D == 0 then up[mid - 1] == b.lowerA + b.width else UpRow(b, up, mid, D - 1, D))
    && (if Odd(Delta(b)) then 2 * D - 1 <= Distance(b) && NoOverlap(b, down, up, mid, D, D - 1, k)
        else 2 * D <= Distance(b))
  }

  /** The reverse half of round `D`, about to handle diagonal `k`, counted from the end. */
  ghost predicate InReverseHalf(b: Box, down: seq<int>, up: seq<int>, mid: int, D: int, k: int) {
    && Sized(b, down, up, mid, D)
    && -D <= k <= D + 2 && (k + D) % 2 == 0
    && UpRow(b, up, mid, D, k)
    && (if D == 0 then k == 0 ==> up[mid - 1] == b.lowerA + b.width else UpRow(b, up, mid, D - 1, D))
    && DownRow(b, down, mid, D, D + 1)
    && 2 * D <= Distance(b)
    && (!Odd(Delta(b)) ==> NoOverlap(b, down, up, mid, D, D, k + Delta(b)))
  }

  lemma ForwardStep(b: Box, before: seq<int>, down: seq<int>, up: seq<int>, mid: int, D: int, k: int)
    requires InForwardHalf(b, before, up, mid, D, k) && OnRow(D, k)
    requires |down| == |before| && down == before[mid + k := down[mid + k]]
    requires DownCell(b, down, mid, D, mid + k)
    ensures var overlap := Odd(Delta(b)) && Shared(b, D, D - 1, k) && up[mid + k - Delta(b)] <= down[mid + k];
            if overlap then
              IsMiddle(b, down[mid + k] - b.lowerA, down[mid + k] - b.lowerA - k) && Distance(b) == 2 * D - 1
            else InForwardHalf(b, down, up, mid, D, k + 2)
  {
    hide Furthest;
    hide FurthestBack;
    hide Distance;
    hide IsMiddle;
    DownRowGrows(b, before, down, mid, D, k);
    if D > 0 {
      DownRowStays(b, before, down, mid, D - 1, D, k);
    }
    if Odd(Delta(b)) {
      NoOverlapStays(b, before, up, down, up, mid, D, D - 1, k);
      if Shared(b, D, D - 1, k) && up[mid + k - Delta(b)] <= down[mid + k] {
        FirstOverlapIsMiddle(b, down, up, mid, D, D - 1, k);
      } else {
        NoOverlapGrows(b, down, up, mid, D, D - 1, k);
      }
    }
  }

  /** The code's tests for the diagonals that the two rows share. */
  lemma SharedTests(b: Box, D: int, k: int)
    requires 0 <= D
    ensures Odd(Delta(b)) && OnRow(D, k) ==> (Shared(b, D, D - 1, k) <==> Delta(b) - D < k < Delta(b) + D)
    ensures !Odd(Delta(b)) && OnRow(D, k - Delta(b)) ==> (Shared(b, D, D, k) <==> -D <= k <= D)
  {
    SharedParity(D, k, Delta(b));
    SharedParity(D, k - Delta(b), -Delta(b));
    hide Delta;
  }

  /** Whether a diagonal of one row has the parity of the other row as well. */
  lemma SharedParity(D: int, k: int, delta: int)
    requires 0 <= D
    ensures (k + D) % 2 == 0 && delta % 2 != 0 ==> (k - delta + D - 1) % 2 == 0
    ensures (k + D) % 2 == 0 && delta % 2 == 0 ==> (k - delta + D) % 2 == 0
  {
  }

  lemma ForwardHalfDone(b: Box, down: seq<int>, up: seq<int>, mid: int, D: int, k: int)
    requires InForwardHalf(b, down, up, mid, D, k) && D < k
    ensures InReverseHalf(b, down, up, mid, D, -D)
  {
    hide DownCell;
    hide UpCell;
    hide Apart;
    DistanceParity(b);
    RowIsWhole(b, down, mid, D, k);
    NothingDoneYet(b, down, up, mid, D, D);
    hide Distance;
    hide DownRow;
    hide UpRow;
    hide NoOverlap;
    if Odd(Delta(b)) && D > 0 {
      OverlapRowIsWhole(b, down, up, mid, D, D - 1, k);
      NoOverlapMeansFurtherApart(b, down, up, mid, D, D - 1);
    }
  }

  /** A row that is done up to beyond its last diagonal is whole. */
  lemma RowIsWhole(b: Box, down: seq<int>, mid: int, D: int, k: int)
    requires D < k && DownRow(b, down, mid, D, k)
    ensures DownRow(b, down, mid, D, D + 1)
  {
    hide DownCell;
  }

  lemma BackRowIsWhole(b: Box, up: seq<int>, mid: int, D: int, k: int)
    requires D < k && UpRow(b, up, mid, D, k)
    ensures UpRow(b, up, mid, D, D + 1)
  {
    hide UpCell;
  }

  lemma OverlapRowIsWhole(b: Box, down: seq<int>, up: seq<int>, mid: int, d: int, e: int, k: int)
    requires d < k && NoOverlap(b, down, up, mid, d, e, k)
    ensures NoOverlap(b, down, up, mid, d, e, d + 1)
  {
    hide Apart;
  }

  /** Before the first diagonal of a row there is nothing to hold. */
  lemma NothingDoneYet(b: Box, down: seq<int>, up: seq<int>, mid: int, d: int, e: int)
    ensures DownRow(b, down, mid, d, -d) && UpRow(b, up, mid, e, -e)
    ensures NoOverlap(b, down, up, mid, d, e, -d) && NoOverlap(b, down, up, mid, d, e, -e + Delta(b))
  {
    hide DownCell;
    hide UpCell;
    hide Apart;
  }

  lemma ReverseStep(b: Box, down: seq<int>, before: seq<int>, up: seq<int>, mid: int, D: int, k: int)
    requires InReverseHalf(b, down, before, mid, D, k) && OnRow(D, k)
    requires |up| == |before| && up == before[mid + k := up[mid + k]]
    requires UpCell(b, up, mid, D, mid + k)
    ensures var overlap := !Odd(Delta(b)) && Shared(b, D, D, k + Delta(b)) && up[mid + k] <= down[mid + k + Delta(b)];
            if overlap then
              var x := down[mid + k + Delta(b)];
              IsMiddle(b, x - b.lowerA, x - b.lowerA - (k + Delta(b))) && Distance(b) == 2 * D
            else InReverseHalf(b, down, up, mid, D, k + 2)
  {
    hide Furthest;
    hide FurthestBack;
    hide Distance;
    hide IsMiddle;
    UpRowGrows(b, before, up, mid, D, k);
    if D > 0 {
      UpRowStays(b, before, up, mid, D - 1, D, k);
    }
    if !Odd(Delta(b)) {
      NoOverlapStays(b, down, before, down, up, mid, D, D, k + Delta(b));
      if Shared(b, D, D, k + Delta(b)) && up[mid + k] <= down[mid + k + Delta(b)] {
        FirstOverlapIsMiddle(b, down, up, mid, D, D, k + Delta(b));
      } else {
        NoOverlapGrows(b, down, up, mid, D, D, k + Delta(b));
      }
    }
  }

  /** A round without an overlap leads to the next one, and never past the last. */
  lemma ReverseHalfDone(b: Box, down: seq<int>, up: seq<int>, mid: int, D: int, k: int)
    requires InReverseHalf(b, down, up, mid, D, k) && D < k
    ensures D <= (b.width + b.height) / 2
    ensures InForwardHalf(b, down, up, mid, D + 1, -D - 1)
  {
    hide DownCell;
    hide UpCell;
    hide Apart;
    DistanceParity(b);
    BackRowIsWhole(b, up, mid, D, k);
    NothingDoneYet(b, down, up, mid, D + 1, D);
    hide Distance;
    hide DownRow;
    hide UpRow;
    if !Odd(Delta(b)) {
      OverlapIsWholeBack(b, down, up, mid, D, k);
      hide NoOverlap;
      NoOverlapMeansFurtherApart(b, down, up, mid, D, D);
    }
    hide NoOverlap;
  }

  lemma OverlapIsWholeBack(b: Box, down: seq<int>, up: seq<int>, mid: int, D: int, k: int)
    requires D < k && NoOverlap(b, down, up, mid, D, D, k + Delta(b))
    ensures NoOverlap(b, down, up, mid, D, D, D + 1)
  {
    hide Apart;
  }

  // ----- The search -----

  /** The callback was called once for each of these pairs, on one diagonal and in one round. */
  ghost predicate OnOneDiagonal(b: Box, asked: set<(int, int)>, calls: nat, d: int, k: int) {
    && calls == |asked|
    && AreAsked(b, asked, d)
    && forall p :: p in asked ==> p.0 - p.1 == k
  }

  /** And before `x`, while the diagonal is followed. */
  ghost predicate AskedBefore(b: Box, asked: set<(int, int)>, calls: nat, d: int, k: int, x: int) {
    OnOneDiagonal(b, asked, calls, d, k) && forall p :: p in asked ==> p.0 < x
  }

  lemma NothingAskedBefore(b: Box, d: int, k: int, left: int, right: int, x: int)
    requires OnSnake(b, d, k, left, right, x)
    ensures 0 <= x && 0 <= x - k
    ensures AskedBefore(b, {}, 0, d, k, x)
  {
  }

  lemma AskedOnDiagonal(b: Box, asked: set<(int, int)>, calls: nat, d: int, k: int)
    requires exists x :: AskedBefore(b, asked, calls, d, k, x)
    ensures OnOneDiagonal(b, asked, calls, d, k)
  {
  }

  lemma AskedOnSnake(b: Box, d: int, k: int, left: int, right: int, x: int, asked: set<(int, int)>, calls: nat)
    requires Feeds(b, d, k, left, right) && OnSnake(b, d, k, left, right, x)
    requires x < b.width && x - k < b.height && AskedBefore(b, asked, calls, d, k, x)
    ensures AskedBefore(b, asked + {(x, x - k)}, calls + 1, d, k, x + 1)
  {
    SnakeIsExact(b, d, k, left, right, x);
    hide Feeds;
    hide Start;
    hide Cost;
  }

  /** Follows the diagonal `k` from a point that round `D` of the forward search has reached. */
  method FollowForward(dataA: DiffData, lowerA: nat, upperA: nat, dataB: DiffData, lowerB: nat, upperB: nat,
                       D: int, k: int, ghost left: int, ghost right: int, start: int)
    returns (x: int, ghost asked: set<(int, int)>, ghost calls: nat)
    requires dataA.data == dataB.data == Arrays(dataA.Length, dataB.Length, dataA.data.equal)
    requires lowerA <= upperA <= dataA.Length && lowerB <= upperB <= dataB.Length
    requires var b, k' := BoxOf(dataA.data, lowerA, upperA, lowerB, upperB), k - (lowerA - lowerB);
             Feeds(b, D, k', left, right) && OnSnake(b, D, k', left, right, start - lowerA)
    ensures Furthest(BoxOf(dataA.data, lowerA, upperA, lowerB, upperB), D, k - (lowerA - lowerB), x - lowerA)
    ensures OnOneDiagonal(BoxOf(dataA.data, lowerA, upperA, lowerB, upperB), asked, calls, D, k - (lowerA - lowerB))
  {
    hide Cost;
    hide Feeds;
    hide Furthest;
    hide OnOneDiagonal;
    ghost var b := BoxOf(dataA.data, lowerA, upperA, lowerB, upperB);
    ghost var k' := k - (lowerA - lowerB);
    x := start;
    var y := x - k;
    asked, calls := {}, 0;
    NothingAskedBefore(b, D, k', left, right, x - lowerA);
    hide OnSnake;
    hide AskedBefore;
    while x < upperA && y < upperB && dataA.data.Equal(x, y)
      invariant lowerA <= x && lowerB <= y && y == x - k
      invariant OnSnake(b, D, k', left, right, x - lowerA)
      invariant AskedBefore(b, asked, calls, D, k', x - lowerA)
    {
      assert b.Match(x - lowerA, y - lowerB);
      AskedOnSnake(b, D, k', left, right, x - lowerA, asked, calls);
      asked, calls := asked + {(x - lowerA, y - lowerB)}, calls + 1;
      SnakeGoesOn(b, D, k', left, right, x - lowerA);
      x := x + 1;
      y := y + 1;
    }
    if x < upperA && y < upperB {
      AskedOnSnake(b, D, k', left, right, x - lowerA, asked, calls);
      asked, calls := asked + {(x - lowerA, y - lowerB)}, calls + 1;
    }
    AskedOnDiagonal(b, asked, calls, D, k');
    SnakeEnds(b, D, k', left, right, x - lowerA);
  }

  /** One step of the forward search: the furthest point of round `D` on the diagonal `k`. */
  method ExtendForward(dataA: DiffData, lowerA: nat, upperA: nat, dataB: DiffData, lowerB: nat, upperB: nat,
                       downVector: array<int>, upVector: array<int>, D: int, k: int)
    returns (ghost asked: set<(int, int)>, ghost calls: nat)
    requires InBounds(dataA, lowerA, upperA, dataB, lowerB, upperB, downVector, upVector)
    requires var cell := dataA.Length + dataB.Length + 1 + k - (lowerA - lowerB);
             && 0 < cell < downVector.Length - 1
             && Feeds(BoxOf(dataA.data, lowerA, upperA, lowerB, upperB), D, k - (lowerA - lowerB),
                      downVector[cell - 1] - lowerA, downVector[cell + 1] - lowerA)
    modifies downVector
    ensures var mid := dataA.Length + dataB.Length + 1;
            var cell := mid + k - (lowerA - lowerB);
            && downVector[..] == old(downVector[..])[cell := downVector[cell]]
            && DownCell(BoxOf(dataA.data, lowerA, upperA, lowerB, upperB), downVector[..], mid, D, cell)
    ensures OnOneDiagonal(BoxOf(dataA.data, lowerA, upperA, lowerB, upperB), asked, calls, D, k - (lowerA - lowerB))
  {
    hide Cost;
    hide OnOneDiagonal;
    hide Furthest;
    ghost var b := BoxOf(dataA.data, lowerA, upperA, lowerB, upperB);
    var MAX := dataA.Length + dataB.Length + 1;
    var downK := lowerA - lowerB;
    var downOffset := MAX - downK;
    ghost var left, right := downVector[downOffset + k - 1] - lowerA, downVector[downOffset + k + 1] - lowerA;
    var x;
    if k == downK - D {
      x := downVector[downOffset + k + 1];
    } else {
      x := downVector[downOffset + k - 1] + 1;
      if k < downK + D && downVector[downOffset + k + 1] >= x {
        x := downVector[downOffset + k + 1];
      }
    }
    SnakeStarts(b, D, k - downK, left, right);
    assert x - lowerA == Start(D, k - downK, left, right);
    hide Feeds;
    hide OnSnake;
    x, asked, calls := FollowForward(dataA, lowerA, upperA, dataB, lowerB, upperB, D, k, left, right, x);
    downVector[downOffset + k] := x;
    assert downVector[..] == old(downVector[..])[downOffset + k := x];
  }

  /** Follows the diagonal `k` back from a point that round `D` of the reverse search has reached. */
  method FollowReverse(dataA: DiffData, lowerA: nat, upperA: nat, dataB: DiffData, lowerB: nat, upperB: nat,
                       D: int, k: int, ghost left: int, ghost right: int, start: int)
    returns (x: int, ghost asked: set<(int, int)>, ghost calls: nat)
    requires dataA.data == dataB.data == Arrays(dataA.Length, dataB.Length, dataA.data.equal)
    requires lowerA <= upperA <= dataA.Length && lowerB <= upperB <= dataB.Length
    requires var b, k' := BoxOf(dataA.data, lowerA, upperA, lowerB, upperB).Reverse(), upperA - upperB - k;
             Feeds(b, D, k', left, right) && OnSnake(b, D, k', left, right, upperA - start)
    ensures Furthest(BoxOf(dataA.data, lowerA, upperA, lowerB, upperB).Reverse(), D, upperA - upperB - k, upperA - x)
    ensures OnOneDiagonal(BoxOf(dataA.data, lowerA, upperA, lowerB, upperB).Reverse(), asked, calls, D,
                          upperA - upperB - k)
  {
    hide Cost;
    hide Feeds;
    hide Furthest;
    hide OnOneDiagonal;
    ghost var b := BoxOf(dataA.data, lowerA, upperA, lowerB, upperB).Reverse();
    ghost var k' := upperA - upperB - k;
    x := start;
    var y := x - k;
    asked, calls := {}, 0;
    NothingAskedBefore(b, D, k', left, right, upperA - x);
    hide OnSnake;
    hide AskedBefore;
    while x > lowerA && y > lowerB && dataA.data.Equal(x - 1, y - 1)
      invariant x <= upperA && y <= upperB && y == x - k
      invariant OnSnake(b, D, k', left, right, upperA - x)
      invariant AskedBefore(b, asked, calls, D, k', upperA - x)
    {
      assert b.Match(upperA - x, upperB - y);
      AskedOnSnake(b, D, k', left, right, upperA - x, asked, calls);
      asked, calls := asked + {(upperA - x, upperB - y)}, calls + 1;
      SnakeGoesOn(b, D, k', left, right, upperA - x);
      x := x - 1;
      y := y - 1;
    }
    if x > lowerA && y > lowerB {
      AskedOnSnake(b, D, k', left, right, upperA - x, asked, calls);
      asked, calls := asked + {(upperA - x, upperB - y)}, calls + 1;
    }
    AskedOnDiagonal(b, asked, calls, D, k');
    SnakeEnds(b, D, k', left, right, upperA - x);
  }

  /** One step of the reverse search: the furthest point of round `D` on the diagonal `k`. */
  method ExtendReverse(dataA: DiffData, lowerA: nat, upperA: nat, dataB: DiffData, lowerB: nat, upperB: nat,
                       downVector: array<int>, upVector: array<int>, D: int, k: int)
    returns (ghost asked: set<(int, int)>, ghost calls: nat)
    requires InBounds(dataA, lowerA, upperA, dataB, lowerB, upperB, downVector, upVector)
    requires var cell := dataA.Length + dataB.Length + 1 + k - (upperA - upperB);
             && 0 < cell < upVector.Length - 1
             && Feeds(BoxOf(dataA.data, lowerA, upperA, lowerB, upperB).Reverse(), D, upperA - upperB - k,
                      upperA - upVector[cell + 1], upperA - upVector[cell - 1])
    modifies upVector
    ensures var mid := dataA.Length + dataB.Length + 1;
            var cell := mid + k - (upperA - upperB);
            && upVector[..] == old(upVector[..])[cell := upVector[cell]]
            && UpCell(BoxOf(dataA.data, lowerA, upperA, lowerB, upperB), upVector[..], mid, D, cell)
    ensures OnOneDiagonal(BoxOf(dataA.data, lowerA, upperA, lowerB, upperB).Reverse(), asked, calls, D,
                          upperA - upperB - k)
  {
    hide Cost;
    hide OnOneDiagonal;
    hide Furthest;
    ghost var b := BoxOf(dataA.data, lowerA, upperA, lowerB, upperB);
    var MAX := dataA.Length + dataB.Length + 1;
    var upK := upperA - upperB;
    var upOffset := MAX - upK;
    ghost var left, right := upperA - upVector[upOffset + k + 1], upperA - upVector[upOffset + k - 1];
    var x;
    if k == upK + D {
      x := upVector[upOffset + k - 1];
    } else {
      x := upVector[upOffset + k + 1] - 1;
      if k > upK - D && upVector[upOffset + k - 1] < x {
        x := upVector[upOffset + k - 1];
      }
    }
    SnakeStarts(b.Reverse(), D, upK - k, left, right);
    assert upperA - x == Start(D, upK - k, left, right);
    hide Feeds;
    hide OnSnake;
    x, asked, calls := FollowReverse(dataA, lowerA, upperA, dataB, lowerB, upperB, D, k, left, right, x);
    upVector[upOffset + k] := x;
    assert upVector[..] == old(upVector[..])[upOffset + k := x];
  }

  /** The callback was called once for each of these pairs, on the diagonals below `k`. */
  ghost predicate OnDiagonalsBelow(b: Box, asked: set<(int, int)>, calls: nat, d: int, k: int) {
    && calls == |asked|
    && AreAsked(b, asked, d)
    && forall p :: p in asked ==> p.0 - p.1 < k
  }

  ghost predicate OnDiagonalsAbove(b: Box, asked: set<(int, int)>, calls: nat, d: int, k: int) {
    && calls == |asked|
    && AreAsked(b, asked, d)
    && forall p :: p in asked ==> k < p.0 - p.1
  }

  lemma OneMoreDiagonal(b: Box, asked: set<(int, int)>, calls: nat, more: set<(int, int)>, moreCalls: nat, d: int,
                        k: int)
    requires OnDiagonalsBelow(b, asked, calls, d, k) && OnOneDiagonal(b, more, moreCalls, d, k)
    ensures OnDiagonalsBelow(b, asked + more, calls + moreCalls, d, k + 2)
  {
    hide IsAsked;
    assert asked * more == {};
  }

  lemma OneMoreBack(b: Box, asked: set<(int, int)>, calls: nat, more: set<(int, int)>, moreCalls: nat, d: int, k: int)
    requires OnDiagonalsAbove(b, asked, calls, d, k) && OnOneDiagonal(b, more, moreCalls, d, k)
    ensures OnDiagonalsAbove(b, asked + more, calls + moreCalls, d, k - 2)
  {
    hide IsAsked;
    assert asked * more == {};
  }

  /** The work of the rounds before `D`: the callback was called once for each pair of the two sets. */
  ghost predicate WorkBefore(b: Box, down: set<(int, int)>, up: set<(int, int)>, calls: nat, cells: nat, D: nat) {
    && AreWithin(b, down, D)
    && AreWithin(b.Reverse(), up, D)
    && calls == |down| + |up|
    && cells <= D * (D + 1) + 2
  }

  /** With `d` half the distance, the callback is called at most `4 * d + 2` times for each element
      of A, and at most `(d + 1) * (d + 2) + 2` cells are written. */
  ghost predicate SearchFits(b: Box, calls: nat, cells: nat) {
    var d := ForwardHalf(b);
    && calls <= 2 * (b.width * (2 * d + 1))
    && cells <= (d + 1) * (d + 2) + 2
  }

  lemma NoWorkBefore(b: Box)
    ensures WorkBefore(b, {}, {}, 0, 2, 0)
  {
  }

  /** The work of both halves of a round, the second one perhaps not begun. */
  lemma WorkOfRound(b: Box, down: set<(int, int)>, up: set<(int, int)>, calls: nat, cells: nat,
                    asked: set<(int, int)>, back: set<(int, int)>, newCells: nat, D: nat)
    requires WorkBefore(b, down, up, calls, cells, D)
    requires AreAsked(b, asked, D) && AreAsked(b.Reverse(), back, D) && newCells <= 2 * (D + 1)
    ensures WorkBefore(b, down + asked, up + back, calls + |asked| + |back|, cells + newCells, D + 1)
  {
    AnotherRound(b, down, asked, D);
    AnotherRound(b.Reverse(), up, back, D);
    assert D * (D + 1) + 2 * (D + 1) == (D + 1) * (D + 2);
  }

  /** The work of a search that ends in round `D`. */
  lemma WorkIsBounded(b: Box, down: set<(int, int)>, up: set<(int, int)>, calls: nat, cells: nat, D: nat)
    requires WorkBefore(b, down, up, calls, cells, D + 1)
    requires Distance(b) == 2 * D - 1 || Distance(b) == 2 * D
    ensures SearchFits(b, calls, cells)
  {
    hide Distance;
    assert ForwardHalf(b) == D;
    FewAreWithin(b, down, D);
    FewAreWithin(b.Reverse(), up, D);
  }

  /** The forward half of round `D` on one diagonal, with the test for an overlap. */
  method ForwardDiagonal(dataA: DiffData, lowerA: nat, upperA: nat, dataB: DiffData, lowerB: nat, upperB: nat,
                         downVector: array<int>, upVector: array<int>, D: int, k: int)
    returns (found: bool, ret: SMSRD, ghost asked: set<(int, int)>, ghost calls: nat)
    requires InBounds(dataA, lowerA, upperA, dataB, lowerB, upperB, downVector, upVector)
    requires OnRow(D, k - (lowerA - lowerB))
    requires InForwardHalf(BoxOf(dataA.data, lowerA, upperA, lowerB, upperB), downVector[..], upVector[..],
                           dataA.Length + dataB.Length + 1, D, k - (lowerA - lowerB))
    modifies downVector
    ensures OnOneDiagonal(BoxOf(dataA.data, lowerA, upperA, lowerB, upperB), asked, calls, D, k - (lowerA - lowerB))
    ensures found ==> IsMiddle(BoxOf(dataA.data, lowerA, upperA, lowerB, upperB), ret.x - lowerA, ret.y - lowerB)
    ensures found ==> Distance(BoxOf(dataA.data, lowerA, upperA, lowerB, upperB)) == 2 * D - 1
    ensures !found ==> InForwardHalf(BoxOf(dataA.data, lowerA, upperA, lowerB, upperB), downVector[..], upVector[..],
                                     dataA.Length + dataB.Length + 1, D, k - (lowerA - lowerB) + 2)
  {
    hide IsMiddle;
    hide DownRow;
    hide UpRow;
    hide NoOverlap;
    hide Distance;
    hide DownCell;
    hide Feeds;
    hide Shared;
    hide OnOneDiagonal;
    ghost var b := BoxOf(dataA.data, lowerA, upperA, lowerB, upperB);
    var MAX := dataA.Length + dataB.Length + 1;
    var downK := lowerA - lowerB;
    var upK := upperA - upperB;
    var delta := (upperA - lowerA) - (upperB - lowerB);
    var oddDelta := delta % 2 != 0;
    var downOffset := MAX - downK;
    var upOffset := MAX - upK;
    ret := SMSRD(0, 0);
    SharedTests(b, D, k - downK);
    ForwardFeeds(b, downVector[..], upVector[..], MAX, D, k - downK);
    ghost var before := downVector[..];
    asked, calls := ExtendForward(dataA, lowerA, upperA, dataB, lowerB, upperB, downVector, upVector, D, k);
    ForwardStep(b, before, downVector[..], upVector[..], MAX, D, k - downK);
    hide InForwardHalf;
    if oddDelta && upK - D < k && k < upK + D {
      if upVector[upOffset + k] <= downVector[downOffset + k] {
        ret := SMSRD(downVector[downOffset + k], downVector[downOffset + k] - k);
        return true, ret, asked, calls;
      }
    }
    found := false;
  }

  lemma ForwardFeeds(b: Box, down: seq<int>, up: seq<int>, mid: int, D: int, k: int)
    requires InForwardHalf(b, down, up, mid, D, k) && OnRow(D, k)
    ensures Sized(b, down, up, mid, D) && 0 < mid + k < |down| - 1
    ensures Feeds(b, D, k, down[mid + k - 1] - b.lowerA, down[mid + k + 1] - b.lowerA)
  {
    hide DownRow;
    hide Feeds;
    hide Distance;
    DownRowFeeds(b, down, mid, D, k);
  }

  /** The forward half of round `D`: the inner loop over its diagonals. It finds the middle point
      exactly if the distance is `2 * D - 1`. */
  method SearchForward(dataA: DiffData, lowerA: nat, upperA: nat, dataB: DiffData, lowerB: nat, upperB: nat,
                       downVector: array<int>, upVector: array<int>, D: int)
    returns (found: bool, ret: SMSRD, ghost asked: set<(int, int)>, ghost calls: nat, ghost cells: nat)
    requires InBounds(dataA, lowerA, upperA, dataB, lowerB, upperB, downVector, upVector)
    requires InForwardHalf(BoxOf(dataA.data, lowerA, upperA, lowerB, upperB), downVector[..], upVector[..],
                           dataA.Length + dataB.Length + 1, D, -D)
    modifies downVector
    ensures found ==> IsMiddle(BoxOf(dataA.data, lowerA, upperA, lowerB, upperB), ret.x - lowerA, ret.y - lowerB)
    ensures found ==> Distance(BoxOf(dataA.data, lowerA, upperA, lowerB, upperB)) == 2 * D - 1
    ensures !found ==> InReverseHalf(BoxOf(dataA.data, lowerA, upperA, lowerB, upperB), downVector[..], upVector[..],
                                     dataA.Length + dataB.Length + 1, D, -D)
    ensures AreAsked(BoxOf(dataA.data, lowerA, upperA, lowerB, upperB), asked, D) && calls == |asked| && cells <= D + 1
  {
    hide IsMiddle;
    hide Distance;
    hide AreAsked;
    ghost var b := BoxOf(dataA.data, lowerA, upperA, lowerB, upperB);
    var MAX := dataA.Length + dataB.Length + 1;
    var downK := lowerA - lowerB;
    InRound(b, downVector[..], upVector[..], MAX, D, -D);
    NothingAsked(b, D);
    hide InForwardHalf;
    hide InReverseHalf;
    hide OnOneDiagonal;
    asked, calls, cells := {}, 0, 0;
    var k := downK - D;
    while k <= downK + D
      invariant 0 <= D && downK - D <= k <= downK + D + 2 && (k - downK + D) % 2 == 0
      invariant InForwardHalf(b, downVector[..], upVector[..], MAX, D, k - downK)
      invariant OnDiagonalsBelow(b, asked, calls, D, k - downK) && 2 * cells == k - downK + D
      modifies downVector
      decreases downK + D - k
    {
      ghost var more, moreCalls;
      found, ret, more, moreCalls :=
        ForwardDiagonal(dataA, lowerA, upperA, dataB, lowerB, upperB, downVector, upVector, D, k);
      OneMoreDiagonal(b, asked, calls, more, moreCalls, D, k - downK);
      asked, calls, cells := asked + more, calls + moreCalls, cells + 1;
      if found {
        return true, ret, asked, calls, cells;
      }
      k := k + 2;
    }
    ForwardHalfDone(b, downVector[..], upVector[..], MAX, D, k - downK);
    found, ret := false, SMSRD(0, 0);
  }

  lemma InRound(b: Box, down: seq<int>, up: seq<int>, mid: int, D: int, k: int)
    requires InForwardHalf(b, down, up, mid, D, k) || InReverseHalf(b, down, up, mid, D, k)
    ensures Sized(b, down, up, mid, D)
  {
  }

  /** The reverse half of round `D` on one diagonal, with the test for an overlap. */
  method ReverseDiagonal(dataA: DiffData, lowerA: nat, upperA: nat, dataB: DiffData, lowerB: nat, upperB: nat,
                         downVector: array<int>, upVector: array<int>, D: int, k: int)
    returns (found: bool, ret: SMSRD, ghost asked: set<(int, int)>, ghost calls: nat)
    requires InBounds(dataA, lowerA, upperA, dataB, lowerB, upperB, downVector, upVector)
    requires OnRow(D, k - (upperA - upperB))
    requires InReverseHalf(BoxOf(dataA.data, lowerA, upperA, lowerB, upperB), downVector[..], upVector[..],
                           dataA.Length + dataB.Length + 1, D, k - (upperA - upperB))
    modifies upVector
    ensures OnOneDiagonal(BoxOf(dataA.data, lowerA, upperA, lowerB, upperB).Reverse(), asked, calls, D,
                          upperA - upperB - k)
    ensures found ==> IsMiddle(BoxOf(dataA.data, lowerA, upperA, lowerB, upperB), ret.x - lowerA, ret.y - lowerB)
    ensures found ==> Distance(BoxOf(dataA.data, lowerA, upperA, lowerB, upperB)) == 2 * D
    ensures !found ==> InReverseHalf(BoxOf(dataA.data, lowerA, upperA, lowerB, upperB), downVector[..], upVector[..],
                                     dataA.Length + dataB.Length + 1, D, k - (upperA - upperB) + 2)
  {
    hide IsMiddle;
    hide DownRow;
    hide UpRow;
    hide NoOverlap;
    hide Distance;
    hide UpCell;
    hide Feeds;
    hide Shared;
    hide OnOneDiagonal;
    ghost var b := BoxOf(dataA.data, lowerA, upperA, lowerB, upperB);
    var MAX := dataA.Length + dataB.Length + 1;
    var downK := lowerA - lowerB;
    var upK := upperA - upperB;
    var delta := (upperA - lowerA) - (upperB - lowerB);
    var oddDelta := delta % 2 != 0;
    var downOffset := MAX - downK;
    var upOffset := MAX - upK;
    ret := SMSRD(0, 0);
    SharedTests(b, D, k - downK);
    ReverseFeeds(b, downVector[..], upVector[..], MAX, D, k - upK);
    ghost var before := upVector[..];
    asked, calls := ExtendReverse(dataA, lowerA, upperA, dataB, lowerB, upperB, downVector, upVector, D, k);
    ReverseStep(b, downVector[..], before, upVector[..], MAX, D, k - upK);
    hide InReverseHalf;
    if !oddDelta && downK - D <= k && k <= downK + D {
      if upVector[upOffset + k] <= downVector[downOffset + k] {
        ret := SMSRD(downVector[downOffset + k], downVector[downOffset + k] - k);
        return true, ret, asked, calls;
      }
    }
    found := false;
  }

  lemma ReverseFeeds(b: Box, down: seq<int>, up: seq<int>, mid: int, D: int, k: int)
    requires InReverseHalf(b, down, up, mid, D, k) && OnRow(D, k)
    ensures Sized(b, down, up, mid, D) && 0 < mid + k < |up| - 1
    ensures Feeds(b.Reverse(), D, -k, b.lowerA + b.width - up[mid + k + 1], b.lowerA + b.width - up[mid + k - 1])
  {
    hide UpRow;
    hide Feeds;
    hide Distance;
    UpRowFeeds(b, up, mid, D, k);
  }

  /** The reverse half of round `D`. It finds the middle point exactly if the distance is `2 * D`,
      and otherwise leaves more rounds to go. */
  method SearchReverse(dataA: DiffData, lowerA: nat, upperA: nat, dataB: DiffData, lowerB: nat, upperB: nat,
                       downVector: array<int>, upVector: array<int>, D: int)
    returns (found: bool, ret: SMSRD, ghost asked: set<(int, int)>, ghost calls: nat, ghost cells: nat)
    requires InBounds(dataA, lowerA, upperA, dataB, lowerB, upperB, downVector, upVector)
    requires InReverseHalf(BoxOf(dataA.data, lowerA, upperA, lowerB, upperB), downVector[..], upVector[..],
                           dataA.Length + dataB.Length + 1, D, -D)
    modifies upVector
    ensures found ==> IsMiddle(BoxOf(dataA.data, lowerA, upperA, lowerB, upperB), ret.x - lowerA, ret.y - lowerB)
    ensures found ==> Distance(BoxOf(dataA.data, lowerA, upperA, lowerB, upperB)) == 2 * D
    ensures !found ==> InForwardHalf(BoxOf(dataA.data, lowerA, upperA, lowerB, upperB), downVector[..], upVector[..],
                                     dataA.Length + dataB.Length + 1, D + 1, -D - 1)
    ensures AreAsked(BoxOf(dataA.data, lowerA, upperA, lowerB, upperB).Reverse(), asked, D)
    ensures calls == |asked| && cells <= D + 1
  {
    hide IsMiddle;
    hide Distance;
    hide AreAsked;
    ghost var b := BoxOf(dataA.data, lowerA, upperA, lowerB, upperB);
    var MAX := dataA.Length + dataB.Length + 1;
    var upK := upperA - upperB;
    InRound(b, downVector[..], upVector[..], MAX, D, -D);
    NothingAsked(b.Reverse(), D);
    hide InForwardHalf;
    hide InReverseHalf;
    hide OnOneDiagonal;
    asked, calls, cells := {}, 0, 0;
    var k := upK - D;
    while k <= upK + D
      invariant 0 <= D && upK - D <= k <= upK + D + 2 && (k - upK + D) % 2 == 0
      invariant InReverseHalf(b, downVector[..], upVector[..], MAX, D, k - upK)
      invariant OnDiagonalsAbove(b.Reverse(), asked, calls, D, upK - k) && 2 * cells == k - upK + D
      modifies upVector
      decreases upK + D - k
    {
      ghost var more, moreCalls;
      found, ret, more, moreCalls :=
        ReverseDiagonal(dataA, lowerA, upperA, dataB, lowerB, upperB, downVector, upVector, D, k);
      OneMoreBack(b.Reverse(), asked, calls, more, moreCalls, D, upK - k);
      asked, calls, cells := asked + more, calls + moreCalls, cells + 1;
      if found {
        return true, ret, asked, calls, cells;
      }
      k := k + 2;
    }
    ReverseHalfDone(b, downVector[..], upVector[..], MAX, D, k - upK);
    found, ret := false, SMSRD(0, 0);
  }

  /** Finds the middle point of a box with elements on both sides, whatever the vectors held. The
      search always ends inside the loop over `D`, in the round that is half the distance: that
      bounds the calls of the callback and the cells written. */
  method SMS(dataA: DiffData, lowerA: nat, upperA: nat, dataB: DiffData, lowerB: nat, upperB: nat,
             downVector: array<int>, upVector: array<int>)
    returns (ret: SMSRD, ghost calls: nat, ghost cells: nat)
    requires InBounds(dataA, lowerA, upperA, dataB, lowerB, upperB, downVector, upVector)
    requires lowerA < upperA && lowerB < upperB
    modifies downVector, upVector
    ensures IsMiddle(BoxOf(dataA.data, lowerA, upperA, lowerB, upperB), ret.x - lowerA, ret.y - lowerB)
    ensures SearchFits(BoxOf(dataA.data, lowerA, upperA, lowerB, upperB), calls, cells)
  {
    hide IsMiddle;
    hide WorkBefore;
    hide AreAsked;
    hide Distance;
    hide SearchFits;
    ghost var b := BoxOf(dataA.data, lowerA, upperA, lowerB, upperB);
    var MAX := dataA.Length + dataB.Length + 1;
    var downK := lowerA - lowerB;
    var upK := upperA - upperB;
    var downOffset := MAX - downK;
    var upOffset := MAX - upK;
    var maxD := (upperA - lowerA + upperB - lowerB) / 2 + 1;
    downVector[downOffset + downK + 1] := lowerA;
    upVector[upOffset + upK - 1] := upperA;
    ghost var down, up: set<(int, int)> := {}, {};
    calls, cells := 0, 2;
    NoWorkBefore(b);
    SearchBegins(b, downVector[..], upVector[..], MAX);
    hide InForwardHalf;
    hide InReverseHalf;
    var D := 0;
    while D <= maxD
      invariant D <= maxD && InForwardHalf(b, downVector[..], upVector[..], MAX, D, -D)
      invariant WorkBefore(b, down, up, calls, cells, D)
      modifies downVector, upVector
    {
      var found;
      ghost var asked, back, newCalls, moreCalls, newCells, moreCells;
      found, ret, asked, newCalls, newCells :=
        SearchForward(dataA, lowerA, upperA, dataB, lowerB, upperB, downVector, upVector, D);
      if found {
        NothingAsked(b.Reverse(), D);
        WorkOfRound(b, down, up, calls, cells, asked, {}, newCells, D);
        calls, cells := calls + newCalls, cells + newCells;
        WorkIsBounded(b, down + asked, up + {}, calls, cells, D);
        return ret, calls, cells;
      }
      found, ret, back, moreCalls, moreCells :=
        SearchReverse(dataA, lowerA, upperA, dataB, lowerB, upperB, downVector, upVector, D);
      WorkOfRound(b, down, up, calls, cells, asked, back, newCells + moreCells, D);
      down, up := down + asked, up + back;
      calls, cells := calls + newCalls + moreCalls, cells + newCells + moreCells;
      if found {
        WorkIsBounded(b, down, up, calls, cells, D);
        return ret, calls, cells;
      }
      RoundsEnd(b, downVector[..], upVector[..], MAX, D + 1);
      D := D + 1;
    }
    assert false;
  }

  lemma SearchBegins(b: Box, down: seq<int>, up: seq<int>, mid: int)
    requires Sized(b, down, up, mid, 0)
    requires down[mid + 1] == b.lowerA && up[mid - 1] == b.lowerA + b.width
    ensures InForwardHalf(b, down, up, mid, 0, 0)
  {
    DistanceParity(b);
    hide Distance;
    hide DownCell;
    hide UpCell;
  }

  lemma RoundsEnd(b: Box, down: seq<int>, up: seq<int>, mid: int, D: int)
    requires InForwardHalf(b, down, up, mid, D, -D)
    ensures 0 <= D <= (b.width + b.height) / 2 + 1
  {
  }

  lemma NothingAsked(b: Box, d: int)
    ensures AreAsked(b, {}, d)
  {
  }
}
